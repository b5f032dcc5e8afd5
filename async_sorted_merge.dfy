/** The asynchronous merge: on every turn a linear scan picks the source with
    the earliest entry, that entry is printed, the source is advanced, and a
    source that has nothing more to give is spliced out of the list.  The
    awaited `popAsync` is the synchronous `PopAsync` of the source. */
module AsyncSortedMerge {
  import opened LogSource
  import opened MergeOrder

  /** compareSources: a when its entry is strictly earlier, otherwise b. */
  function CompareSources(a: Source, b: Source): (r: Source)
    ensures a.LastDate() < b.LastDate() ==> r == a
    ensures b.LastDate() <= a.LastDate() ==> r == b
    ensures r.LastDate() <= a.LastDate() && r.LastDate() <= b.LastDate()
  {
    if a.LastDate() < b.LastDate() then a else b
  }

  /** sources.reduce(compareSources): an earliest source, and on a tie the
      last of the earliest ones in list order. */
  function FindSourceWithLeastRecentEntry(sources: seq<Source>): (r: Source)
    requires |sources| > 0
    ensures r in sources
    ensures forall s :: s in sources ==> r.LastDate() <= s.LastDate()
    ensures exists i :: 0 <= i < |sources| && sources[i] == r
                        && forall j :: i < j < |sources| ==> r.LastDate() < sources[j].LastDate()
    decreases |sources|
  {
    if |sources| == 1 then sources[0]
    else
      var init := sources[..|sources| - 1];
      var acc := FindSourceWithLeastRecentEntry(init);
      assert sources == init + [sources[|sources| - 1]];
      ReduceStep(init, sources[|sources| - 1], acc);
      CompareSources(acc, sources[|sources| - 1])
  }

  /** One step of the reduce: if acc is the last earliest source of init,
      comparing it with the next element gives the last earliest source of
      init + [next]. */
  lemma ReduceStep(init: seq<Source>, next: Source, acc: Source)
    requires acc in init
    requires forall s :: s in init ==> acc.LastDate() <= s.LastDate()
    requires exists i :: 0 <= i < |init| && init[i] == acc
                         && forall j :: i < j < |init| ==> acc.LastDate() < init[j].LastDate()
    ensures CompareSources(acc, next) in init + [next]
    ensures forall s :: s in init + [next] ==> CompareSources(acc, next).LastDate() <= s.LastDate()
    ensures exists i :: 0 <= i < |init + [next]| && (init + [next])[i] == CompareSources(acc, next)
                        && forall j :: i < j < |init + [next]| ==> CompareSources(acc, next).LastDate() < (init + [next])[j].LastDate()
  {
    var sources := init + [next];
    var r := CompareSources(acc, next);
    forall s | s in sources ensures r.LastDate() <= s.LastDate() {
      if s != next {
        assert s in init;
      }
    }
    var i0 :| 0 <= i0 < |init| && init[i0] == acc
              && forall j :: i0 < j < |init| ==> acc.LastDate() < init[j].LastDate();
    if acc.LastDate() < next.LastDate() {
      assert sources[i0] == r;
      forall j | i0 < j < |sources| ensures r.LastDate() < sources[j].LastDate() {
        if j < |init| {
          assert sources[j] == init[j];
        }
      }
    } else {
      assert sources[|sources| - 1] == r;
    }
  }

  /** sources.indexOf(source): the first position holding the same object,
      or -1 when there is none. */
  function IndexOf(sources: seq<Source>, source: Source): (i: int)
    ensures -1 <= i < |sources|
    ensures i == -1 <==> forall k :: 0 <= k < |sources| ==> sources[k].id != source.id
    ensures 0 <= i ==> sources[i].id == source.id
                        && forall k :: 0 <= k < i ==> sources[k].id != source.id
  {
    if |sources| == 0 then -1
    else if sources[0].id == source.id then 0
    else
      var j := IndexOf(sources[1..], source);
      if j == -1 then -1 else j + 1
  }

  /** The list after sources.splice(start, 1): one element taken out at
      start, a negative start counting from the end, nothing taken out when
      start is past the end. */
  function Splice(sources: seq<Source>, start: int): (r: seq<Source>)
    ensures 0 <= start < |sources| ==>
      && |r| == |sources| - 1
      && (forall j :: 0 <= j < start ==> r[j] == sources[j])
      && (forall j :: start <= j < |r| ==> r[j] == sources[j + 1])
    ensures 0 <= start < |sources| ==> multiset(r) == multiset(sources) - multiset{sources[start]}
    ensures |sources| <= start ==> r == sources
    ensures 0 < |sources| && start == -1 ==> r == sources[..|sources| - 1]
  {
    var k := if start < 0 then (if |sources| + start < 0 then 0 else |sources| + start)
             else (if start > |sources| then |sources| else start);
    if k < |sources| then
      assert sources == sources[..k] + [sources[k]] + sources[k + 1..];
      sources[..k] + sources[k + 1..]
    else sources
  }

  /** No two list entries are the same object. */
  predicate DistinctIds(sources: seq<Source>) {
    forall i, j :: 0 <= i < j < |sources| ==> sources[i].id != sources[j].id
  }

  /** In a list of distinct objects, indexOf finds an object's one position. */
  lemma IndexOfDistinct(sources: seq<Source>, p: int, source: Source)
    requires DistinctIds(sources) && 0 <= p < |sources| && sources[p].id == source.id
    ensures IndexOf(sources, source) == p
  {
  }

  /** Splicing at a valid position takes out exactly that element. */
  lemma SpliceAt(sources: seq<Source>, p: int)
    requires 0 <= p < |sources|
    ensures Splice(sources, p) == sources[..p] + sources[p + 1..]
  {
    var r := Splice(sources, p);
    var t := sources[..p] + sources[p + 1..];
    assert |r| == |t|;
    forall j | 0 <= j < |r| ensures r[j] == t[j] {
      if j < p {
        assert t[j] == sources[j];
      } else {
        assert t[j] == sources[j + 1];
      }
    }
  }

  /** Replacing an object of a list by its advanced self keeps the objects distinct. */
  lemma ReplaceKeepsDistinct(sources: seq<Source>, p: int, source: Source)
    requires DistinctIds(sources) && 0 <= p < |sources| && sources[p].id == source.id
    ensures DistinctIds(sources[p := source])
  {
    var t := sources[p := source];
    forall i, j | 0 <= i < j < |t| ensures t[i].id != t[j].id {
      assert t[i].id == sources[i].id && t[j].id == sources[j].id;
    }
  }

  /** Taking an element out of a list keeps the objects distinct. */
  lemma RemoveKeepsDistinct(sources: seq<Source>, p: int)
    requires DistinctIds(sources) && 0 <= p < |sources|
    ensures DistinctIds(sources[..p] + sources[p + 1..])
  {
    var t := sources[..p] + sources[p + 1..];
    forall i, j | 0 <= i < j < |t| ensures t[i].id != t[j].id {
      var i' := if i < p then i else i + 1;
      var j' := if j < p then j else j + 1;
      assert t[i] == sources[i'] && t[j] == sources[j'];
    }
  }

  /** Splicing an advanced object out of the list, at the position indexOf
      finds for it, leaves the other objects in their order. */
  lemma SpliceOutAdvanced(sources: seq<Source>, at: int, advanced: Source)
    requires DistinctIds(sources) && 0 <= at < |sources| && sources[at].id == advanced.id
    ensures Splice(sources[at := advanced], IndexOf(sources[at := advanced], advanced))
            == sources[..at] + sources[at + 1..]
  {
    var next := sources[at := advanced];
    ReplaceKeepsDistinct(sources, at, advanced);
    IndexOfDistinct(next, at, advanced);
    SpliceAt(next, at);
    assert next[..at] == sources[..at] && next[at + 1..] == sources[at + 1..];
  }

  /** The position of the chosen object in the list: where indexOf finds the
      source that findSourceWithLeastRecentEntry picks. */
  function Chosen(sources: seq<Source>): (p: int)
    requires |sources| > 0 && DistinctIds(sources)
    ensures 0 <= p < |sources| && sources[p] == FindSourceWithLeastRecentEntry(sources)
  {
    var source := FindSourceWithLeastRecentEntry(sources);
    var i := IndexOf(sources, source);
    assert i != -1 by {
      var k :| 0 <= k < |sources| && sources[k] == source;
      assert sources[k].id == source.id;
    }
    i
  }

  /** One turn of the loop: pick the earliest source, capture its entry,
      advance it in place, and splice it out when it has nothing left.  The
      turn changes the chosen object's position only. */
  method Turn(sources: seq<Source>) returns (next: seq<Source>, lastLog: Entry)
    requires |sources| > 0 && DistinctIds(sources)
    requires forall s :: s in sources ==> !s.Drained()
    ensures lastLog == FindSourceWithLeastRecentEntry(sources).Last()
    ensures sources[Chosen(sources)].Pop().Drained() ==>
      next == sources[..Chosen(sources)] + sources[Chosen(sources) + 1..]
    ensures !sources[Chosen(sources)].Pop().Drained() ==>
      next == sources[Chosen(sources) := sources[Chosen(sources)].Pop()]
  {
    var source := FindSourceWithLeastRecentEntry(sources);
    lastLog := source.Last();
    // The object being advanced sits at this position of the list.
    var at := IndexOf(sources, source);
    assert at == Chosen(sources);
    var (advanced, log) := source.PopAsync();
    next := sources[at := advanced];
    if log.None? {
      SpliceOutAdvanced(sources, at, advanced);
      var index := IndexOf(next, advanced);
      next := Splice(next, index);
    }
  }

  /** Taking out the chosen, now drained, object leaves distinct, undrained
      objects: the old ones less the chosen one. */
  lemma AfterRemove(sources: seq<Source>, p: int)
    requires DistinctIds(sources) && forall s :: s in sources ==> !s.Drained()
    requires 0 <= p < |sources|
    ensures DistinctIds(sources[..p] + sources[p + 1..])
    ensures forall s :: s in sources[..p] + sources[p + 1..] ==> !s.Drained()
    ensures multiset(sources[..p] + sources[p + 1..]) == multiset(sources) - multiset{sources[p]}
  {
    assert sources == sources[..p] + [sources[p]] + sources[p + 1..];
    RemoveKeepsDistinct(sources, p);
    assert forall s :: s in sources[..p] + sources[p + 1..] ==> s in sources;
  }

  /** Advancing the chosen, still undrained, object in place leaves distinct,
      undrained objects: the old ones with the chosen one advanced. */
  lemma AfterReplace(sources: seq<Source>, p: int)
    requires DistinctIds(sources) && forall s :: s in sources ==> !s.Drained()
    requires 0 <= p < |sources| && !sources[p].Pop().Drained()
    ensures DistinctIds(sources[p := sources[p].Pop()])
    ensures forall s :: s in sources[p := sources[p].Pop()] ==> !s.Drained()
    ensures multiset(sources[p := sources[p].Pop()])
            == multiset(sources) - multiset{sources[p]} + multiset{sources[p].Pop()}
  {
    var next := sources[p := sources[p].Pop()];
    assert sources == sources[..p] + [sources[p]] + sources[p + 1..];
    assert next == sources[..p] + [sources[p].Pop()] + sources[p + 1..];
    ReplaceKeepsDistinct(sources, p, sources[p].Pop());
    assert forall s :: s in next ==> s in sources || s == sources[p].Pop();
  }

  /** What holds of the list between two turns of the loop. */
  ghost predicate ListInvariant(sources: seq<Source>, trace: seq<PrinterCall>, all: multiset<Entry>) {
    && DistinctIds(sources)
    && (forall s :: s in sources ==> !s.Drained())
    && MergeInvariant(multiset(sources), trace, all)
  }

  /** A turn whose chosen object gives up its final entry: printing that
      entry and splicing the object out keeps the invariant and consumes one
      pending entry. */
  lemma DropTurn(sources: seq<Source>, p: int, trace: seq<PrinterCall>, all: multiset<Entry>)
    requires ListInvariant(sources, trace, all)
    requires 0 <= p < |sources| && sources[p] == FindSourceWithLeastRecentEntry(sources)
    requires sources[p].Pop().Drained()
    ensures ListInvariant(sources[..p] + sources[p + 1..], trace + [Print(sources[p].Last())], all)
    ensures |Pending(multiset(sources[..p] + sources[p + 1..]))| < |Pending(multiset(sources))|
  {
    var chosen, held := sources[p], multiset(sources);
    assert forall s: Source :: s in held ==> chosen.LastDate() <= s.LastDate();
    AfterRemove(sources, p);
    PrintAndDrop(held, chosen, trace, all);
  }

  /** A turn whose chosen object still has entries after the advance:
      printing and advancing it in place keeps the invariant and consumes one
      pending entry. */
  lemma AdvanceTurn(sources: seq<Source>, p: int, trace: seq<PrinterCall>, all: multiset<Entry>)
    requires ListInvariant(sources, trace, all)
    requires 0 <= p < |sources| && sources[p] == FindSourceWithLeastRecentEntry(sources)
    requires !sources[p].Pop().Drained()
    ensures ListInvariant(sources[p := sources[p].Pop()], trace + [Print(sources[p].Last())], all)
    ensures |Pending(multiset(sources[p := sources[p].Pop()]))| < |Pending(multiset(sources))|
  {
    var chosen, held := sources[p], multiset(sources);
    assert forall s: Source :: s in held ==> chosen.LastDate() <= s.LastDate();
    AfterReplace(sources, p);
    PrintAndAdvance(held, chosen, trace, all);
  }

  /** Whatever a turn does with the chosen object, it keeps the invariant and
      consumes exactly one pending entry, so the loop terminates. */
  lemma TurnStep(sources: seq<Source>, next: seq<Source>, trace: seq<PrinterCall>, all: multiset<Entry>)
    requires ListInvariant(sources, trace, all) && |sources| > 0
    requires sources[Chosen(sources)].Pop().Drained() ==>
      next == sources[..Chosen(sources)] + sources[Chosen(sources) + 1..]
    requires !sources[Chosen(sources)].Pop().Drained() ==>
      next == sources[Chosen(sources) := sources[Chosen(sources)].Pop()]
    ensures ListInvariant(next, trace + [Print(FindSourceWithLeastRecentEntry(sources).Last())], all)
    ensures |Pending(multiset(next))| < |Pending(multiset(sources))|
  {
    var p := Chosen(sources);
    var printed := trace + [Print(FindSourceWithLeastRecentEntry(sources).Last())];
    assert printed == trace + [Print(sources[p].Last())];
    if sources[p].Pop().Drained() {
      assert next == sources[..p] + sources[p + 1..];
      DropTurn(sources, p, trace, all);
    } else {
      assert next == sources[p := sources[p].Pop()];
      AdvanceTurn(sources, p, trace, all);
    }
  }

  /** The exported merge: print every entry of every source in date order,
      then call done() once. */
  method Merge(logSources: seq<Source>) returns (trace: seq<PrinterCall>)
    requires forall s :: s in logSources ==> SortedByDate(s.pending) && !s.Drained()
    requires DistinctIds(logSources)
    ensures DoneOnceAtEnd(trace)
    ensures SortedByDate(Printed(trace))
    ensures multiset(Printed(trace)) == multiset(AllEntries(logSources))
  {
    var sources := logSources;
    StartMerge(logSources);
    ghost var all := multiset(AllEntries(logSources));
    trace := [];
    while |sources| != 0
      invariant ListInvariant(sources, trace, all)
      decreases |Pending(multiset(sources))|
    {
      ghost var before := sources;
      var lastLog;
      sources, lastLog := Turn(sources);
      TurnStep(before, sources, trace, all);
      trace := trace + [Print(lastLog)];
    }
    FinishMerge(trace, all);
    trace := trace + [Done];
  }
}
