/** The journal record, the entry counter its `add_entry` advances, and the
    two ways of saving a journal: its own `save` and the persistence
    manager's. Saving is modelled by the text it would write. */
module Journals {
  import opened Decimal
  import opened EntryFormat
  import opened Serialization

  /** The entry counter. In the C++ code it is a function-local static of
      `add_entry`, so there is one of it for the whole process and every
      journal draws its numbers from it. */
  class Counter {
    /** The number the next entry receives. */
    var next: nat
    /** The numbers handed out so far, in the order they were handed out. */
    ghost var issued: seq<nat>

    /** Numbers are handed out from 1 upwards, one at a time, never twice. */
    ghost predicate Valid()
      reads this
    {
      next >= 1 && |issued| == next - 1 &&
      forall i :: 0 <= i < |issued| ==> issued[i] == i + 1
    }

    constructor ()
      ensures Valid() && next == 1 && issued == []
    {
      next := 1;
      issued := [];
    }

    /** `count++`: yields the current value and advances by one. */
    method Take() returns (n: nat)
      requires Valid()
      modifies this
      ensures Valid()
      ensures n == old(next) && next == old(next) + 1
      ensures issued == old(issued) + [n]
    {
      n := next;
      next := next + 1;
      issued := issued + [n];
    }
  }

  /** Strictly increasing numbers, all handed out before `bound`. */
  ghost predicate Ascending(numbers: seq<nat>, bound: nat) {
    (forall i :: 0 <= i < |numbers| ==> 1 <= numbers[i] < bound) &&
    (forall i, j :: 0 <= i < j < |numbers| ==> numbers[i] < numbers[j])
  }

  lemma {:induction false} AscendingLowerBound(numbers: seq<nat>, bound: nat, i: nat)
    requires Ascending(numbers, bound) && i < |numbers|
    ensures numbers[i] >= i + 1
  {
    if i > 0 {
      AscendingLowerBound(numbers, bound, i - 1);
    }
  }

  lemma {:induction false} AscendingUpperBound(numbers: seq<nat>, bound: nat, i: nat)
    requires Ascending(numbers, bound) && i < |numbers|
    ensures numbers[i] + (|numbers| - i) <= bound
    decreases |numbers| - i
  {
    if i + 1 < |numbers| {
      AscendingUpperBound(numbers, bound, i + 1);
    }
  }

  /** When the numbers below `bound` are all taken, they are exactly
      1, 2, ..., bound - 1 in order. */
  lemma AscendingFull(numbers: seq<nat>, bound: nat)
    requires Ascending(numbers, bound) && |numbers| == bound - 1
    ensures forall i :: 0 <= i < |numbers| ==> numbers[i] == i + 1
  {
    forall i | 0 <= i < |numbers|
      ensures numbers[i] == i + 1
    {
      AscendingLowerBound(numbers, bound, i);
      AscendingUpperBound(numbers, bound, i);
    }
  }

  class Journal {
    var title: string
    var entries: seq<string>
    /** The counter shared by every journal. */
    const counter: Counter
    /** The number and the caller's text behind each stored entry. */
    ghost var numbers: seq<nat>
    ghost var texts: seq<string>

    /** Every stored entry is `"<n>: <text>"` for a number drawn from the
        shared counter, and the numbers grow along the journal. */
    ghost predicate Valid()
      reads this, counter
    {
      counter.Valid() &&
      |numbers| == |entries| && |texts| == |entries| &&
      (forall i :: 0 <= i < |entries| ==> entries[i] == Format(numbers[i], texts[i])) &&
      Ascending(numbers, counter.next)
    }

    constructor (title: string, counter: Counter)
      requires counter.Valid()
      ensures Valid()
      ensures this.title == title && entries == [] && this.counter == counter
      ensures numbers == [] && texts == []
    {
      this.title := title;
      entries := [];
      this.counter := counter;
      numbers := [];
      texts := [];
    }

    /** Appends `"<n>: <entry>"`, where n is the shared counter's value,
        and advances the counter. */
    method AddEntry(entry: string)
      requires Valid()
      modifies this, counter
      ensures Valid()
      ensures entries == old(entries) + [Format(old(counter.next), entry)]
      ensures numbers == old(numbers) + [old(counter.next)]
      ensures texts == old(texts) + [entry]
      ensures counter.next == old(counter.next) + 1
      ensures title == old(title)
    {
      var n := counter.Take();
      entries := entries + [NatToString(n) + ": " + entry];
      numbers := numbers + [n];
      texts := texts + [entry];
    }

    /** The content `save` writes to the file: every entry followed by a
        line break. */
    method Save() returns (content: string)
      ensures content == Content(entries)
    {
      content := "";
      for i := 0 to |entries|
        invariant content == Content(entries[..i])
      {
        assert entries[..i + 1][..i] == entries[..i];
        content := content + entries[i] + "\n";
      }
      assert entries[..|entries|] == entries;
    }
  }

  /** Reads a stored entry back: it parses to the number and the text it was
      made from. */
  lemma EntryParses(journal: Journal, i: nat)
    requires journal.Valid() && i < |journal.entries|
    ensures Parse(journal.entries[i]) == Some((journal.numbers[i], journal.texts[i]))
  {
    ParseIffFormat(journal.entries[i], journal.numbers[i], journal.texts[i]);
  }

  /** Because the counter is shared, one journal's `add_entry` advances the
      numbering of every other journal on that counter, and those journals
      keep their invariant: their entries stay below the new counter value. */
  method AddEntryKeepsOthersValid(a: Journal, b: Journal, text: string)
    requires a.Valid() && b.Valid() && a != b && a.counter == b.counter
    modifies a, a.counter
    ensures a.Valid() && b.Valid()
    ensures b.entries == old(b.entries)
    ensures b.counter.next == old(b.counter.next) + 1
  {
    a.AddEntry(text);
  }

  /** A journal that made every call to the shared counter numbers its
      entries 1, 2, 3, ... in the order they were added. */
  lemma SoleJournalNumbering(journal: Journal)
    requires journal.Valid() && |journal.entries| == journal.counter.next - 1
    ensures forall i :: 0 <= i < |journal.entries| ==>
      journal.entries[i] == Format(i + 1, journal.texts[i])
  {
    AscendingFull(journal.numbers, journal.counter.next);
  }

  class PersistenceManager {
    /** The content `PersistenceManager::save` writes for `journal`. */
    static method Save(journal: Journal) returns (content: string)
      ensures content == Content(journal.entries)
    {
      content := "";
      for i := 0 to |journal.entries|
        invariant content == Content(journal.entries[..i])
      {
        assert journal.entries[..i + 1][..i] == journal.entries[..i];
        content := content + journal.entries[i] + "\n";
      }
      assert journal.entries[..|journal.entries|] == journal.entries;
    }
  }

  /** The journal's own `save` and the persistence manager's write the same
      content; neither changes the journal. */
  method SavesAgree(journal: Journal) returns (own: string, managed: string)
    ensures own == managed
  {
    own := journal.Save();
    managed := PersistenceManager.Save(journal);
  }
}
