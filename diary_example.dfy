/** The call sequence of the program's `main`, and what the shared counter
    means when a process keeps more than one journal. */
module DiaryExample {
  import opened Decimal
  import opened EntryFormat
  import opened Serialization
  import opened Journals

  lemma ContentOfOne(a: string)
    ensures Content([a]) == a + "\n"
  {
  }

  lemma ContentOfTwo(a: string, b: string)
    ensures Content([a, b]) == a + "\n" + b + "\n"
  {
    assert [a, b][..1] == [a];
    ContentOfOne(a);
  }

  /** The entries of the two example runs, spelled out. */
  lemma ExampleEntries()
    ensures Format(1, "I ate a bug") == "1: I ate a bug"
    ensures Format(2, "I laughed today!") == "2: I laughed today!"
    ensures Format(3, "I slept") == "3: I slept"
  {
    assert NatToString(1) == "1";
    assert NatToString(2) == "2";
    assert NatToString(3) == "3";
  }

  /** The file `main` writes, spelled out. */
  lemma DiaryText()
    ensures Content([Format(1, "I ate a bug"), Format(2, "I laughed today!")])
         == "1: I ate a bug\n2: I laughed today!\n"
  {
    ExampleEntries();
    ContentOfTwo("1: I ate a bug", "2: I laughed today!");
  }

  /** `main`: a fresh process writes two entries into "Dear Diary" and saves
      it through the persistence manager. */
  method DearDiary() returns (content: string)
    ensures content == "1: I ate a bug\n2: I laughed today!\n"
  {
    var counter := new Counter();
    var journal := new Journal("Dear Diary", counter);
    journal.AddEntry("I ate a bug");
    journal.AddEntry("I laughed today!");
    assert journal.entries == [Format(1, "I ate a bug"), Format(2, "I laughed today!")];
    DiaryText();
    content := PersistenceManager.Save(journal);
  }

  /** A journal that saves before anything was added writes nothing. */
  method EmptyJournal(title: string) returns (content: string)
    ensures content == ""
  {
    var counter := new Counter();
    var journal := new Journal(title, counter);
    content := journal.Save();
  }

  /** The files two journals sharing one counter write, spelled out. */
  lemma SharedText()
    ensures Content([Format(1, "I ate a bug"), Format(3, "I slept")])
         == "1: I ate a bug\n3: I slept\n"
    ensures Content([Format(2, "I laughed today!")]) == "2: I laughed today!\n"
  {
    ExampleEntries();
    ContentOfTwo("1: I ate a bug", "3: I slept");
    ContentOfOne("2: I laughed today!");
  }

  /** Two journals in one process: the second continues the first's
      numbering instead of starting again at 1, and the first keeps its
      invariant while the second advances the counter. */
  method SharedNumbering() returns (first: string, second: string)
    ensures first == "1: I ate a bug\n3: I slept\n"
    ensures second == "2: I laughed today!\n"
  {
    var counter := new Counter();
    var diary := new Journal("Dear Diary", counter);
    var log := new Journal("Log", counter);
    diary.AddEntry("I ate a bug");
    log.AddEntry("I laughed today!");
    assert diary.Valid();
    diary.AddEntry("I slept");
    assert diary.entries == [Format(1, "I ate a bug"), Format(3, "I slept")];
    assert log.entries == [Format(2, "I laughed today!")];
    SharedText();
    first := diary.Save();
    second := log.Save();
  }
}
