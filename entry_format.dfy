/** The text of one journal entry, `"<n>: <text>"`, and how to read it back. */
module EntryFormat {
  import opened Decimal

  datatype Option<T> = None | Some(value: T)

  const Separator: string := ": "

  /** The entry `add_entry` stores for counter value `n` and caller text `text`. */
  function Format(n: nat, text: string): string {
    NatToString(n) + Separator + text
  }

  /** The number of leading digits of `s`. */
  function DigitRun(s: string): (k: nat)
    ensures k <= |s| && AllDigits(s[..k])
    ensures k < |s| ==> !IsDigit(s[k])
  {
    if |s| == 0 || !IsDigit(s[0]) then 0
    else
      var k := 1 + DigitRun(s[1..]);
      assert s[..k] == [s[0]] + s[1..][..k - 1];
      k
  }

  /** Reads an entry back into its number and its text: a canonical numeral,
      then the separator, then anything at all. */
  function Parse(line: string): Option<(nat, string)> {
    var k := DigitRun(line);
    var numeral, rest := line[..k], line[k..];
    if IsCanonical(numeral) && |rest| >= |Separator| && rest[..|Separator|] == Separator
    then Some((ParseDecimal(numeral), rest[|Separator|..]))
    else None
  }

  /** The digit run of a numeral followed by a non-digit is that numeral. */
  lemma DigitRunOf(numeral: string, tail: string)
    requires AllDigits(numeral) && |tail| >= 1 && !IsDigit(tail[0])
    ensures DigitRun(numeral + tail) == |numeral|
  {
    var s := numeral + tail;
    var k := DigitRun(s);
    assert forall i :: 0 <= i < |numeral| ==> s[i] == numeral[i];
    assert s[|numeral|] == tail[0];
    assert AllDigits(s[..k]);
  }

  /** A line parses to `(n, text)` exactly when it is the entry formatted
      from `n` and `text`. */
  lemma ParseIffFormat(line: string, n: nat, text: string)
    ensures Parse(line) == Some((n, text)) <==> line == Format(n, text)
  {
    if line == Format(n, text) {
      var numeral := NatToString(n);
      DigitRunOf(numeral, Separator + text);
      assert line[..|numeral|] == numeral;
      assert line[|numeral|..] == Separator + text;
      ParseNatToString(n);
    }
    if Parse(line) == Some((n, text)) {
      var k := DigitRun(line);
      NatToStringParse(line[..k]);
      assert line == line[..k] + line[k..][..|Separator|] + line[k..][|Separator|..];
    }
  }

  /** Formatting loses nothing: number and text are both recoverable. */
  lemma FormatInjective(m: nat, s: string, n: nat, t: string)
    requires Format(m, s) == Format(n, t)
    ensures m == n && s == t
  {
    ParseIffFormat(Format(m, s), m, s);
    ParseIffFormat(Format(n, t), n, t);
  }
}
