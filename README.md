# Journal and persistence manager, modelled in Dafny

This project models the single-responsibility example of the
design-patterns repository (`SOLID-design-principles/single-responsibility-principle/main.cpp`).
A `Journal` has a title and a list of entries. `add_entry` stores each entry as
`"<n>: <text>"`. `n` comes from a counter that starts at 1 and is
post-incremented. Two `save` routines write every entry followed by a line
break: `Journal::save`, and `PersistenceManager::save`, which moves persistence
out of the journal.

Layout:

- `decimal.dfy` (module `Decimal`): the natural-number-to-decimal conversion
  that `lexical_cast<string>` performs, and a parser for it.
- `entry_format.dfy` (module `EntryFormat`): the entry text `"<n>: <text>"`
  and a parser that reads an entry back.
- `serialization.dfy` (module `Serialization`): the saved file content as a
  pure function of the entries, and its inverse, the split into lines.
- `journal.dfy` (module `Journals`): the classes `Counter`, `Journal` and
  `PersistenceManager`. `Journal.Save` and `PersistenceManager.Save` build the
  content in a loop and are proved equal to `Serialization.Content`.
- `diary_example.dfy` (module `DiaryExample`): the call sequence of `main`,
  plus a run with two journals that share the counter.

The counter is `static int count` local to `add_entry`, so in the C++ code it
is a single counter for the whole process. The model follows the code. The
counter is a `Counter` object, and each `Journal` holds a reference to the
counter it was constructed with. Passing every journal the same counter, as
the program's one static does, is up to the caller. When journals share it, a
second journal continues the numbering instead of restarting at 1
(`Journals.AddEntryKeepsOthersValid`, `DiaryExample.SharedNumbering`). A
per-journal counter would restart at 1 for each journal. The C++ code does not
do that, and neither does the model.

The code never checks the output stream, so a failed save raises no error and
the model has no error path for saving.

## Model

| member | source | states |
|---|---|---|
| `Decimal.NatToString` | SOLID-design-principles/single-responsibility-principle/main.cpp:23 | The decimal rendering of the counter is a non-empty string of ASCII digits with no leading zero (except for 0 itself), and is one digit long exactly when the number is below 10 |
| `Decimal.ParseNatToString` | SOLID-design-principles/single-responsibility-principle/main.cpp:23 | Parsing the decimal rendering of n gives back n |
| `Decimal.NatToStringParse` | SOLID-design-principles/single-responsibility-principle/main.cpp:23 | Every canonical numeral is the rendering of the number it denotes, so the conversion is onto the canonical numerals |
| `Decimal.NatToStringInjective` | SOLID-design-principles/single-responsibility-principle/main.cpp:23 | Distinct counter values give distinct renderings |
| `EntryFormat.ParseIffFormat` | SOLID-design-principles/single-responsibility-principle/main.cpp:23 | A line parses to (n, text) if and only if it is exactly the rendering of n, then ": ", then text |
| `EntryFormat.FormatInjective` | SOLID-design-principles/single-responsibility-principle/main.cpp:23 | The stored entry determines both its number and the caller's text |
| `Serialization.ContentAppend` | SOLID-design-principles/single-responsibility-principle/main.cpp:48-50 | Saved content is written entry by entry: the content of a + b is the content of a followed by that of b |
| `Serialization.LinesOfContent` | SOLID-design-principles/single-responsibility-principle/main.cpp:48-50 | Splitting the saved content at its line breaks gives exactly the entries, in order, with no line extra or missing, when no entry holds a line break |
| `Serialization.NewlineCount` | SOLID-design-principles/single-responsibility-principle/main.cpp:48-50 | The saved content holds one line break per entry when no entry holds a line break |
| `Journals.Counter.constructor` | SOLID-design-principles/single-responsibility-principle/main.cpp:22 | The counter starts at 1, with no number handed out yet |
| `Journals.Counter.Take` | SOLID-design-principles/single-responsibility-principle/main.cpp:23 | `count++` returns the current value and advances the counter by exactly one; the numbers handed out so far are 1, 2, ..., in call order, none reused |
| `Journals.Journal.constructor` | SOLID-design-principles/single-responsibility-principle/main.cpp:15-19 | A new journal has the given title (any string, empty included), no entries, and draws its numbers from the counter it is given |
| `Journals.Journal.AddEntry` | SOLID-design-principles/single-responsibility-principle/main.cpp:21-24 | Appends exactly one entry, the shared counter's value before the call rendered in decimal, then ": ", then the text. Earlier entries and the title are unchanged, the counter advances by one, and the journal's numbers stay strictly increasing |
| `Journals.Journal.Save` | SOLID-design-principles/single-responsibility-principle/main.cpp:46-51 | The loop writes the in-order concatenation of each entry followed by a line break. It has no modifies clause, so it changes neither entries nor title |
| `Journals.PersistenceManager.Save` | SOLID-design-principles/single-responsibility-principle/main.cpp:64-69 | The loop writes the in-order concatenation of each of the journal's entries followed by a line break. It has no modifies clause, so it leaves the journal unchanged |
| `Journals.SavesAgree` | SOLID-design-principles/single-responsibility-principle/main.cpp:46-69 | The journal's own save and the persistence manager's save write identical content |
| `Journals.AddEntryKeepsOthersValid` | SOLID-design-principles/single-responsibility-principle/main.cpp:21-24 | When two journals share one counter, an entry added to one advances the counter the other sees by one, leaves the other's entries unchanged, and keeps both journals' numbering invariant |
| `Journals.EntryParses` | SOLID-design-principles/single-responsibility-principle/main.cpp:23 | Every stored entry parses back to the number it was given and the text the caller passed |
| `Journals.AscendingFull` | SOLID-design-principles/single-responsibility-principle/main.cpp:22-23 | Strictly increasing numbers below a bound that use up every value 1 to bound - 1 are exactly 1, 2, ..., in order |
| `Journals.SoleJournalNumbering` | SOLID-design-principles/single-responsibility-principle/main.cpp:21-24 | If one journal made every call to the counter, its k-th entry is "k: " followed by the k-th text passed to add_entry |
| `DiaryExample.DiaryText` | SOLID-design-principles/single-responsibility-principle/main.cpp:76-78 | The content for the entries numbered 1 and 2 with `main`'s two texts is "1: I ate a bug\n2: I laughed today!\n" |
| `DiaryExample.DearDiary` | SOLID-design-principles/single-responsibility-principle/main.cpp:76-91 | `main`'s sequence: a fresh counter, journal "Dear Diary", two entries, then a save through the persistence manager. It writes "1: I ate a bug\n2: I laughed today!\n" |
| `DiaryExample.EmptyJournal` | SOLID-design-principles/single-responsibility-principle/main.cpp:46-51 | Saving a journal with no entries writes empty content, whatever its title |
| `DiaryExample.SharedNumbering` | SOLID-design-principles/single-responsibility-principle/main.cpp:22-23 | Two journals share one counter: entries added alternately are numbered 1, 2, 3 across both journals, and the second journal starts at 2 |

## Left out

- File I/O: opening and truncating the file with `ofstream`, flushing on
  `endl`, and closing the handle at scope end are not modelled. Each save
  returns the string it would write. So "saving twice overwrites" is not
  modelled: it is a property of the file system.
- I/O failures: the code never checks the stream. A file that cannot be opened
  receives nothing and no error is raised, so there is no error path to model.
- `boost::lexical_cast` itself is a library outside this model.
  `Decimal.NatToString` stands for its conversion of a non-negative `int` to
  decimal.
- Overflow of `static int count` past `INT_MAX` (undefined behaviour in C++)
  is not modelled: the counter is a `nat`.
- `Journals.Journal.constructor` takes the counter as a parameter. In C++ the
  counter is one hidden static for the whole process. In the model, passing
  that one process-wide counter to every journal is the caller's job. The
  model does not prevent a caller from creating two counters and so getting
  per-journal numbering, which the C++ code cannot produce. The counter must
  satisfy `Counter.Valid()`, which holds for every counter the `Counter`
  constructor creates.
- `title` and `entries` are public fields of the C++ struct. Any code could
  overwrite them. The model assumes they change only through `AddEntry`, as
  in the program.
- `main`'s wiring and the explanatory comments are covered only by the
  worked-example methods in `DiaryExample`.
