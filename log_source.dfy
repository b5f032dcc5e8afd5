/** The abstract log source and printer that both merges work against.

    A log source delivers its entries in non-decreasing date order.  Its
    `last` property is the entry it currently offers, `pop` advances it to
    the next one, and `drained` says that nothing is left.  Here a source is
    a value holding the entries it has not yet given up: `last` is the first
    of them and the source is drained when there are none.  The printer is
    the sequence of calls made on it. */
module LogSource {

  datatype Option<T> = None | Some(value: T)

  /** One log line: a date (a JavaScript `Date`, here an integer) and its text. */
  datatype Entry = Entry(date: int, msg: string)

  /** A log source.  `id` stands for the object's identity (two sources are the
      same object exactly when their ids agree); `pending` are the entries it
      has yet to offer, `pending[0]` being `last`; `drainedDate` is the date that
      `last.date` still reports once the source is drained, which the model
      leaves arbitrary. */
  datatype Source = Source(id: nat, pending: seq<Entry>, drainedDate: int) {

    /** Nothing is left to offer. */
    predicate Drained()
      ensures Drained() <==> forall e :: e !in pending
    {
      assert |pending| > 0 ==> pending[0] in pending;
      |pending| == 0
    }

    /** The entry the source currently offers. */
    function Last(): (e: Entry)
      requires !Drained()
      ensures e in pending
      ensures SortedByDate(pending) ==> forall i :: 0 <= i < |pending| ==> e.date <= pending[i].date
    {
      pending[0]
    }

    /** `last.date`, the key both merges compare sources by. */
    function LastDate(): (d: int)
      ensures !Drained() ==> d == Last().date
      ensures Drained() ==> d == drainedDate
    {
      if Drained() then drainedDate else pending[0].date
    }

    /** `pop()`: advance to the next entry.  A drained source stays drained. */
    function Pop(): (s: Source)
      ensures s.id == id && s.drainedDate == drainedDate
      ensures !Drained() ==> [Last()] + s.pending == pending
      ensures Drained() ==> s.Drained()
    {
      if Drained() then this else this.(pending := pending[1..])
    }

    /** `popAsync()`, awaited: the advanced source together with what the
        promise resolves to, the new `last`, or nothing once drained. */
    function PopAsync(): (r: (Source, Option<Entry>))
      ensures r.0 == Pop()
      ensures r.1.None? <==> r.0.Drained()
      ensures r.1.Some? ==> r.1.value == r.0.Last()
    {
      var next := Pop();
      (next, if next.Drained() then None else Some(next.Last()))
    }
  }

  predicate SortedByDate(es: seq<Entry>) {
    forall i, j :: 0 <= i <= j < |es| ==> es[i].date <= es[j].date
  }

  /** Every entry of every source, source after source. */
  function AllEntries(sources: seq<Source>): seq<Entry> {
    if |sources| == 0 then [] else sources[0].pending + AllEntries(sources[1..])
  }

  /** A call made on the printer. */
  datatype PrinterCall = Print(entry: Entry) | Done

  /** The entries handed to `printer.print`, in order. */
  function Printed(trace: seq<PrinterCall>): (es: seq<Entry>)
    ensures |es| <= |trace|
    ensures OnlyPrints(trace) ==> |es| == |trace| && forall i :: 0 <= i < |trace| ==> trace[i] == Print(es[i])
  {
    if |trace| == 0 then []
    else Printed(trace[..|trace| - 1])
         + (if trace[|trace| - 1].Print? then [trace[|trace| - 1].entry] else [])
  }

  predicate OnlyPrints(trace: seq<PrinterCall>) {
    forall i :: 0 <= i < |trace| ==> trace[i].Print?
  }

  /** `printer.done()` was called exactly once, as the very last call. */
  predicate DoneOnceAtEnd(trace: seq<PrinterCall>) {
    |trace| > 0 && trace[|trace| - 1].Done? && OnlyPrints(trace[..|trace| - 1])
  }

  lemma PrintedAppend(trace: seq<PrinterCall>, c: PrinterCall)
    ensures Printed(trace + [c]) == Printed(trace) + (if c.Print? then [c.entry] else [])
  {
    assert (trace + [c])[..|trace|] == trace;
  }

  /** Printing e after a sorted output whose last date is at most e's keeps it sorted. */
  lemma {:induction false} SortedSnoc(es: seq<Entry>, e: Entry)
    requires SortedByDate(es)
    requires |es| > 0 ==> es[|es| - 1].date <= e.date
    ensures SortedByDate(es + [e])
  {
    var t := es + [e];
    forall i, j | 0 <= i <= j < |t| ensures t[i].date <= t[j].date {
      if j == |es| && i < |es| {
        assert es[i].date <= es[|es| - 1].date;
      }
    }
  }

  /** Some element of a non-empty multiset. */
  ghost function Pick(m: multiset<Source>): (s: Source)
    requires m != multiset{}
    ensures s in m
  {
    var s :| s in m; s
  }

  /** The entries still pending in a collection of sources, as a multiset. */
  ghost function Pending(m: multiset<Source>): multiset<Entry>
    decreases |m|
  {
    if m == multiset{} then multiset{}
    else multiset(Pick(m).pending) + Pending(m - multiset{Pick(m)})
  }

  /** Pending does not depend on the order in which sources are taken out. */
  lemma {:induction false} PendingPick(m: multiset<Source>, s: Source)
    requires s in m
    ensures Pending(m) == multiset(s.pending) + Pending(m - multiset{s})
    decreases |m|
  {
    var t := Pick(m);
    assert Pending(m) == multiset(t.pending) + Pending(m - multiset{t});
    if t != s {
      var m1, m2 := m - multiset{t}, m - multiset{s};
      assert s in m1 && t in m2;
      PendingPick(m1, s);
      PendingPick(m2, t);
      assert m1 - multiset{s} == m2 - multiset{t};
      var rest := Pending(m1 - multiset{s});
      var ts, ss := multiset(t.pending), multiset(s.pending);
      assert Pending(m) == ts + (ss + rest);
      assert Pending(m2) == ts + rest;
      assert ts + (ss + rest) == ss + (ts + rest);
    }
  }

  /** The pending entries of a list of sources are their concatenation. */
  lemma {:induction false} PendingOfSeq(sources: seq<Source>)
    ensures Pending(multiset(sources)) == multiset(AllEntries(sources))
  {
    if |sources| > 0 {
      assert sources == [sources[0]] + sources[1..];
      assert multiset(sources) - multiset{sources[0]} == multiset(sources[1..]);
      PendingPick(multiset(sources), sources[0]);
      PendingOfSeq(sources[1..]);
    }
  }

  /** Advancing one source of a collection consumes exactly its current entry. */
  lemma PendingAdvance(m: multiset<Source>, s: Source)
    requires s in m && !s.Drained()
    ensures Pending(m - multiset{s} + multiset{s.Pop()}) + multiset{s.Last()} == Pending(m)
  {
    var next := s.Pop();
    var m' := m - multiset{s} + multiset{next};
    PendingPick(m, s);
    PendingPick(m', next);
    assert m' - multiset{next} == m - multiset{s};
    var rest, later := Pending(m - multiset{s}), multiset(next.pending);
    assert multiset(s.pending) == multiset{s.Last()} + later;
    assert Pending(m') == later + rest;
    assert Pending(m) == multiset{s.Last()} + later + rest;
  }

  /** Taking out a source whose current entry is its last one consumes
      exactly that entry. */
  lemma PendingLast(m: multiset<Source>, s: Source)
    requires s in m && !s.Drained() && s.Pop().Drained()
    ensures Pending(m - multiset{s}) + multiset{s.Last()} == Pending(m)
  {
    PendingPick(m, s);
    assert s.pending == [s.Last()];
  }

  lemma OnlyPrintsSnoc(trace: seq<PrinterCall>, e: Entry)
    requires OnlyPrints(trace)
    ensures OnlyPrints(trace + [Print(e)])
  {
    var t := trace + [Print(e)];
    forall i | 0 <= i < |t| ensures t[i].Print? {
      if i < |trace| {
        assert t[i] == trace[i];
      }
    }
  }
}
