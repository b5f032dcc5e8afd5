/** What both merges keep true while they run, and the steps they take:
    printing the earliest pending entry and advancing its source, dropping a
    drained source, and calling done() at the end. */
module MergeOrder {
  import opened LogSource

  /** No source of the collection offers an entry earlier than date d. */
  ghost predicate NoEarlierThan(d: int, sources: multiset<Source>) {
    forall s :: s in sources && !s.Drained() ==> d <= s.Last().date
  }

  /** What holds between two turns of a merge loop: the sources still held
      are sorted, only print calls were made so far, the printed entries are
      sorted and no later than anything still pending, and together with the
      pending entries they are exactly the entries `all` started with. */
  ghost predicate MergeInvariant(held: multiset<Source>, trace: seq<PrinterCall>, all: multiset<Entry>) {
    && (forall s :: s in held ==> SortedByDate(s.pending))
    && OnlyPrints(trace)
    && SortedByDate(Printed(trace))
    && (|Printed(trace)| > 0 ==> NoEarlierThan(Printed(trace)[|Printed(trace)| - 1].date, held))
    && multiset(Printed(trace)) + Pending(held) == all
  }

  /** After printing m's entry, the advanced m offers nothing earlier. */
  lemma AdvancedNoEarlier(held: multiset<Source>, m: Source)
    requires m in held && !m.Drained() && SortedByDate(m.pending)
    requires forall s :: s in held ==> m.LastDate() <= s.LastDate()
    ensures NoEarlierThan(m.Last().date, held - multiset{m} + multiset{m.Pop()})
  {
    var advanced := m.Pop();
    forall s | s in held - multiset{m} + multiset{advanced} && !s.Drained()
      ensures m.Last().date <= s.Last().date
    {
      if s == advanced {
        assert m.pending[1] == s.Last();
      } else {
        assert s in held;
      }
    }
  }

  /** Advancing a sorted source of a collection of sorted sources keeps them sorted. */
  lemma SortedAfterAdvance(held: multiset<Source>, m: Source)
    requires forall s :: s in held ==> SortedByDate(s.pending)
    requires m in held
    ensures forall s :: s in held - multiset{m} + multiset{m.Pop()} ==> SortedByDate(s.pending)
  {
    forall s | s in held - multiset{m} + multiset{m.Pop()} ensures SortedByDate(s.pending) {
      if s != m.Pop() {
        assert s in held;
      }
    }
  }

  /** Printing m's entry keeps the invariant whenever what is held next is
      sorted, offers nothing earlier than that entry, and pends exactly what
      was pending before, less that entry. */
  lemma PrintStep(held: multiset<Source>, held2: multiset<Source>, m: Source,
                  trace: seq<PrinterCall>, all: multiset<Entry>)
    requires MergeInvariant(held, trace, all)
    requires m in held && !m.Drained()
    requires forall s :: s in held2 ==> SortedByDate(s.pending)
    requires NoEarlierThan(m.Last().date, held2)
    requires Pending(held2) + multiset{m.Last()} == Pending(held)
    ensures MergeInvariant(held2, trace + [Print(m.Last())], all)
  {
    var e := m.Last();
    var printed := Printed(trace);
    assert |printed| > 0 ==> printed[|printed| - 1].date <= e.date;
    SortedSnoc(printed, e);
    PrintedAppend(trace, Print(e));
    OnlyPrintsSnoc(trace, e);
    assert multiset(printed + [e]) == multiset(printed) + multiset{e};
    var rest := Pending(held2);
    assert multiset(printed) + multiset{e} + rest == multiset(printed) + (rest + multiset{e});
  }

  /** Printing the earliest source's entry and putting the advanced source
      back keeps the invariant and consumes exactly one pending entry. */
  lemma PrintAndAdvance(held: multiset<Source>, m: Source, trace: seq<PrinterCall>, all: multiset<Entry>)
    requires MergeInvariant(held, trace, all)
    requires m in held && !m.Drained()
    requires forall s :: s in held ==> m.LastDate() <= s.LastDate()
    ensures MergeInvariant(held - multiset{m} + multiset{m.Pop()}, trace + [Print(m.Last())], all)
    ensures |Pending(held - multiset{m} + multiset{m.Pop()})| + 1 == |Pending(held)|
  {
    var held2 := held - multiset{m} + multiset{m.Pop()};
    SortedAfterAdvance(held, m);
    AdvancedNoEarlier(held, m);
    PendingAdvance(held, m);
    PrintStep(held, held2, m, trace, all);
  }

  /** Taking a source out of a collection keeps the rest sorted and offering
      nothing earlier than the source did. */
  lemma DropKeeps(held: multiset<Source>, m: Source)
    requires forall s :: s in held ==> SortedByDate(s.pending)
    requires forall s :: s in held ==> m.LastDate() <= s.LastDate()
    requires !m.Drained()
    ensures forall s :: s in held - multiset{m} ==> SortedByDate(s.pending)
    ensures NoEarlierThan(m.Last().date, held - multiset{m})
  {
    assert forall s :: s in held - multiset{m} ==> s in held;
  }

  /** Dropping a drained source keeps the invariant and prints nothing. */
  lemma DropDrained(held: multiset<Source>, m: Source, trace: seq<PrinterCall>, all: multiset<Entry>)
    requires MergeInvariant(held, trace, all)
    requires m in held && m.Drained()
    ensures MergeInvariant(held - multiset{m}, trace, all)
    ensures Pending(held - multiset{m}) == Pending(held)
  {
    PendingPick(held, m);
    assert forall s :: s in held - multiset{m} ==> s in held;
  }

  /** Printing the earliest source's last entry and dropping the source,
      now drained, keeps the invariant and consumes exactly that entry. */
  lemma PrintAndDrop(held: multiset<Source>, m: Source, trace: seq<PrinterCall>, all: multiset<Entry>)
    requires MergeInvariant(held, trace, all)
    requires m in held && !m.Drained() && m.Pop().Drained()
    requires forall s :: s in held ==> m.LastDate() <= s.LastDate()
    ensures MergeInvariant(held - multiset{m}, trace + [Print(m.Last())], all)
    ensures |Pending(held - multiset{m})| + 1 == |Pending(held)|
  {
    DropKeeps(held, m);
    PendingLast(held, m);
    PrintStep(held, held - multiset{m}, m, trace, all);
  }

  /** Before anything is printed the invariant holds of the sources given. */
  lemma StartMerge(logSources: seq<Source>)
    requires forall s :: s in logSources ==> SortedByDate(s.pending)
    ensures MergeInvariant(multiset(logSources), [], multiset(AllEntries(logSources)))
  {
    PendingOfSeq(logSources);
  }

  /** Once nothing is held, calling done() completes the promised trace. */
  lemma FinishMerge(trace: seq<PrinterCall>, all: multiset<Entry>)
    requires MergeInvariant(multiset{}, trace, all)
    ensures DoneOnceAtEnd(trace + [Done])
    ensures SortedByDate(Printed(trace + [Done])) && multiset(Printed(trace + [Done])) == all
  {
    PrintedAppend(trace, Done);
    assert (trace + [Done])[..|trace|] == trace;
  }
}
