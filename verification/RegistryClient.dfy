/** Reading the registry: paging through versions while others publish, and picking a record by ledger. */
module RegistryClient {
  import opened Results
  import opened Strings
  import opened RegistryContract
  import opened RegistryRuns

  /** The versions a reader keeps: those that do not start with its truncation marker. */
  function Kept(vs: seq<Version>, marker: string): seq<Version> {
    if vs == [] then []
    else
      var n := |vs| - 1;
      if StartsWith(vs[n], marker) then Kept(vs[..n], marker) else Kept(vs[..n], marker) + [vs[n]]
  }

  const CLIENT_MARKER := "__truncated_"
  const KEEPER_MARKER := "__truncated"

  lemma {:induction false} KeptConcat(a: seq<Version>, b: seq<Version>, marker: string)
    ensures Kept(a + b, marker) == Kept(a, marker) + Kept(b, marker)
  {
    if b == [] {
      assert a + b == a;
    } else {
      var n := |b| - 1;
      KeptConcat(a, b[..n], marker);
      assert (a + b)[..|a| + n] == a + b[..n];
    }
  }

  lemma {:induction false} KeptMembers(vs: seq<Version>, marker: string)
    ensures forall v :: v in Kept(vs, marker) <==> v in vs && !StartsWith(v, marker)
  {
    if vs != [] {
      KeptMembers(vs[..|vs| - 1], marker);
      assert vs == vs[..|vs| - 1] + [vs[|vs| - 1]];
    }
  }

  /** Successive views of a list that only ever grows at its end. */
  ghost predicate Growing(views: seq<seq<Version>>) {
    forall i, j | 0 <= i <= j < |views| :: views[i] <= views[j]
  }

  /** What the pager returns: the kept versions, the calls it made, and whether it reached the end. */
  datatype Pages = Pages(all: seq<Version>, calls: nat, complete: bool)

  /** Paging on from a cursor, with `all` kept so far. */
  function PagedFrom(views: seq<seq<Version>>, marker: string, all: seq<Version>, cursor: Option<nat>, calls: nat): Pages
    requires calls <= |views|
    decreases |views| - calls
  {
    if cursor.None? || calls == |views| then Pages(all, calls, cursor.None?)
    else
      var (page, next) := ListPage(views[calls], cursor.value, MAX_PAGE_SIZE);
      PagedFrom(views, marker, all + Kept(page, marker), next, calls + 1)
  }

  /**
   `views[i]` is the version list when the i-th page is read; running out of views stands
   for a simulation without a result, at which the loop stops.
   */
  function Paged(views: seq<seq<Version>>, marker: string): Pages {
    PagedFrom(views, marker, [], Some(0), 0)
  }

  /** The paging loop. */
  method ListVersions(views: seq<seq<Version>>, marker: string) returns (all: seq<Version>, calls: nat, complete: bool)
    ensures Pages(all, calls, complete) == Paged(views, marker)
    ensures Growing(views) && complete ==> 0 < calls <= |views| && all == Kept(views[calls - 1], marker)
  {
    all, calls, complete := [], 0, false;
    var cursor: Option<nat> := Some(0);
    while cursor.Some? && calls < |views|
      invariant calls <= |views| && complete == cursor.None?
      invariant PagedFrom(views, marker, all, cursor, calls) == Paged(views, marker)
      decreases |views| - calls
    {
      var (page, next) := ListPage(views[calls], cursor.value, MAX_PAGE_SIZE);
      var kept := KeepPage(page, marker);
      all := all + kept;
      cursor := next;
      calls := calls + 1;
      complete := cursor.None?;
    }
    if Growing(views) {
      PagedIsLastView(views, marker);
    }
  }

  /** What the first `calls` pages cover of the list as it stood at the last of them. */
  ghost function PagesRead(views: seq<seq<Version>>, calls: nat): seq<Version>
    requires calls <= |views|
  {
    if calls == 0 then []
    else
      var view, n := views[calls - 1], MAX_PAGE_SIZE * calls;
      if n < |view| then view[..n] else view
  }

  /** A further page extends what was read, because the list only grew at its end. */
  lemma PageAppended(views: seq<seq<Version>>, calls: nat)
    requires Growing(views) && calls < |views|
    requires calls > 0 ==> MAX_PAGE_SIZE * calls < |views[calls - 1]|
    ensures var (page, next) := ListPage(views[calls], MAX_PAGE_SIZE * calls, MAX_PAGE_SIZE);
            && PagesRead(views, calls + 1) == PagesRead(views, calls) + page
            && (next.Some? ==> next.value == MAX_PAGE_SIZE * (calls + 1) && next.value < |views[calls]|)
            && (next.None? ==> PagesRead(views, calls + 1) == views[calls])
  {
    var view, start := views[calls], MAX_PAGE_SIZE * calls;
    var page := ListPage(view, start, MAX_PAGE_SIZE).0;
    if calls > 0 {
      assert views[calls - 1] <= view;
      assert PagesRead(views, calls) == views[calls - 1][..start] == view[..start];
    }
    if start < |view| {
      assert view[..start] + page == view[..start + |page|];
    }
  }

  lemma {:induction false} PagedFromIsLastView(views: seq<seq<Version>>, marker: string, all: seq<Version>, calls: nat)
    requires Growing(views) && calls <= |views| && all == Kept(PagesRead(views, calls), marker)
    requires calls > 0 ==> MAX_PAGE_SIZE * calls < |views[calls - 1]|
    ensures IsLastView(views, marker, PagedFrom(views, marker, all, Some(MAX_PAGE_SIZE * calls), calls))
    decreases |views| - calls
  {
    if calls < |views| {
      var (page, next) := ListPage(views[calls], MAX_PAGE_SIZE * calls, MAX_PAGE_SIZE);
      PageAppended(views, calls);
      KeptConcat(PagesRead(views, calls), page, marker);
      if next.Some? {
        PagedFromIsLastView(views, marker, all + Kept(page, marker), calls + 1);
      }
    }
  }

  /** A reader whose every call is answered has the list as it stood at its last page. */
  ghost predicate IsLastView(views: seq<seq<Version>>, marker: string, r: Pages) {
    && r.calls <= |views|
    && (r.complete ==> r.calls > 0 && r.all == Kept(views[r.calls - 1], marker))
    && (!r.complete ==> r.calls == |views| && r.all == Kept(PagesRead(views, r.calls), marker))
  }

  lemma PagedIsLastView(views: seq<seq<Version>>, marker: string)
    requires Growing(views)
    ensures IsLastView(views, marker, Paged(views, marker))
  {
    PagedFromIsLastView(views, marker, [], 0);
  }

  method KeepPage(page: seq<Version>, marker: string) returns (kept: seq<Version>)
    ensures kept == Kept(page, marker)
  {
    kept := [];
    for i := 0 to |page|
      invariant kept == Kept(page[..i], marker)
    {
      assert page[..i + 1][..i] == page[..i];
      if !StartsWith(page[i], marker) {
        kept := kept + [page[i]];
      }
    }
    assert page[..|page|] == page;
  }

  // ---------------------------------------------------------------- records

  /** The records of the listed versions, each read in a state of its own. */
  function RecordsOf(vs: seq<Version>, seenIn: seq<State>, p: Pair): seq<Record>
    requires |vs| == |seenIn|
  {
    if vs == [] then []
    else
      var n := |vs| - 1;
      var before := RecordsOf(vs[..n], seenIn[..n], p);
      match GetVersion(seenIn[n], p, vs[n])
      case Some(record) => before + [record]
      case None => before
  }

  /** The record of one version in a state that holds it. */
  function RecordsIn(s: State, p: Pair, vs: seq<Version>): seq<Record>
    requires forall v | v in vs :: (p, v) in s.specs
  {
    seq(|vs|, i requires 0 <= i < |vs| => s.specs[(p, vs[i])])
  }

  /** Reading records later than the listing gives the records as of the listing. */
  lemma {:induction false} RecordsAreStable(s: State, p: Pair, vs: seq<Version>, seenIn: seq<State>)
    requires |vs| == |seenIn| && (forall i | 0 <= i < |seenIn| :: Later(s, seenIn[i]))
    requires forall v | v in vs :: (p, v) in s.specs
    ensures RecordsOf(vs, seenIn, p) == RecordsIn(s, p, vs)
  {
    if vs != [] {
      var n := |vs| - 1;
      assert vs == vs[..n] + [vs[n]];
      RecordsAreStable(s, p, vs[..n], seenIn[..n]);
    }
  }

  /** The scan of getSpecAt: the first record of the highest ledger not above `ledger`. */
  method SelectAt(records: seq<Record>, ledger: nat) returns (candidate: Option<Record>)
    ensures candidate == Selected(records, ledger)
  {
    candidate := None;
    for i := 0 to |records|
      invariant candidate == Selected(records[..i], ledger)
    {
      assert records[..i + 1][..i] == records[..i];
      var record := records[i];
      if record.publishedAtLedger <= ledger
         && (candidate.None? || record.publishedAtLedger > candidate.value.publishedAtLedger) {
        candidate := Some(record);
      }
    }
    assert records[..|records|] == records;
  }

  function Selected(records: seq<Record>, ledger: nat): Option<Record> {
    if records == [] then None
    else
      var n := |records| - 1;
      var before, record := Selected(records[..n], ledger), records[n];
      if record.publishedAtLedger <= ledger
         && (before.None? || record.publishedAtLedger > before.value.publishedAtLedger)
      then Some(record) else before
  }

  /** `i` is the first position of the highest ledger not above `ledger`. */
  ghost predicate FirstOfNewest(records: seq<Record>, ledger: nat, i: nat) {
    && i < |records| && records[i].publishedAtLedger <= ledger
    && (forall j | 0 <= j < i && records[j].publishedAtLedger <= ledger ::
          records[j].publishedAtLedger < records[i].publishedAtLedger)
    && (forall j | i <= j < |records| && records[j].publishedAtLedger <= ledger ::
          records[j].publishedAtLedger <= records[i].publishedAtLedger)
  }

  lemma {:induction false} SelectedIsFirstOfNewest(records: seq<Record>, ledger: nat) returns (i: nat)
    ensures Selected(records, ledger).None? <==> forall j | 0 <= j < |records| :: records[j].publishedAtLedger > ledger
    ensures Selected(records, ledger).Some? ==>
              FirstOfNewest(records, ledger, i) && Selected(records, ledger) == Some(records[i])
  {
    i := 0;
    if records != [] {
      var n := |records| - 1;
      i := SelectedIsFirstOfNewest(records[..n], ledger);
      assert forall j | 0 <= j < n :: records[..n][j] == records[j];
      if Selected(records, ledger) == Some(records[n])
         && records[n].publishedAtLedger <= ledger
         && (Selected(records[..n], ledger).None?
             || records[n].publishedAtLedger > Selected(records[..n], ledger).value.publishedAtLedger) {
        i := n;
      }
    }
  }

  // ---------------------------------------------------------------- getSpecAt against history

  /** The pair's newest version by the end of a ledger was listed, and alone in its ledger among those listed. */
  ghost predicate NewestStandsAlone(s: State, p: Pair) {
    var vs := VersionsOf(s, p);
    vs != [] ==>
      var last := vs[|vs| - 1];
      && !StartsWith(last, CLIENT_MARKER)
      && forall i | 0 <= i < |vs| - 1 && !StartsWith(vs[i], CLIENT_MARKER) ::
           LedgerOf(s, p, vs[i]) < LedgerOf(s, p, last)
  }

  /** The ledger at which a version was published. */
  function LedgerOf(s: State, p: Pair, v: Version): nat {
    if (p, v) in s.specs then s.specs[(p, v)].publishedAtLedger else 0
  }

  /** The registry at each page read: some actions take place before every one of them. */
  function StatesRead(s: State, between: seq<seq<Action>>): seq<State>
    decreases |between|
  {
    if between == [] then []
    else
      var t := Run(s, between[0]);
      [t] + StatesRead(t, between[1..])
  }

  function ViewsOf(states: seq<State>, p: Pair): seq<seq<Version>> {
    seq(|states|, i requires 0 <= i < |states| => VersionsOf(states[i], p))
  }

  lemma {:induction false} StatesGrow(s: State, between: seq<seq<Action>>)
    requires Inv(s)
    ensures |StatesRead(s, between)| == |between|
    ensures forall i | 0 <= i < |between| :: Inv(StatesRead(s, between)[i]) && Later(s, StatesRead(s, between)[i])
    ensures forall i, j | 0 <= i <= j < |between| :: Later(StatesRead(s, between)[i], StatesRead(s, between)[j])
    decreases |between|
  {
    if between != [] {
      var t := Run(s, between[0]);
      var rest := StatesRead(t, between[1..]);
      RunKeepsInv(s, between[0]);
      RunIsLater(s, between[0]);
      StatesGrow(t, between[1..]);
      forall i | 0 <= i < |rest| ensures Later(s, rest[i]) {
        LaterTransitive(s, t, rest[i]);
      }
      RunIsLater(t, []);
    }
  }

  lemma ViewsGrow(s: State, between: seq<seq<Action>>, p: Pair)
    requires Inv(s)
    ensures Growing(ViewsOf(StatesRead(s, between), p))
  {
    StatesGrow(s, between);
    var states := StatesRead(s, between);
    forall i, j | 0 <= i <= j < |states| ensures VersionsOf(states[i], p) <= VersionsOf(states[j], p) {
      assert Later(states[i], states[j]);
    }
  }

  /**
   A cold getSpecAt asks about ledger `at`. `atEnd` is the registry when that ledger ends.
   Afterwards the pages are read, with the actions `between[i]` before the i-th of them,
   and then each record, after actions of its own. The answer is the record `latest` gave
   at the end of the ledger exactly when that record stands alone.
   */
  lemma GetSpecAtIsHistoricalLatest(
    start: State, before: seq<Action>, at: nat, gap: nat, between: seq<seq<Action>>, p: Pair, afterwards: seq<seq<Action>>)
    requires Inv(start)
    requires var atEnd := Run(start, before);
             atEnd.ledger <= at < atEnd.ledger + gap
    requires var read := Paged(ViewsOf(StatesRead(Step(Run(start, before), Close(gap, 0)), between), p), CLIENT_MARKER);
             read.complete && |afterwards| == |read.all|
    ensures var atEnd := Run(start, before);
            var states := StatesRead(Step(atEnd, Close(gap, 0)), between);
            var read := Paged(ViewsOf(states, p), CLIENT_MARKER);
            && 0 < read.calls <= |states|
            && (Selected(RecordsOf(read.all, SeenIn(states[read.calls - 1], afterwards), p), at) == Latest(atEnd, p)
                <==> NewestStandsAlone(atEnd, p))
  {
    var atEnd := Run(start, before);
    var next := Step(atEnd, Close(gap, 0));
    RunKeepsInv(start, before);
    StepKeepsInv(atEnd, Close(gap, 0));
    AnswerAfterPaging(atEnd, next, at, between, p, afterwards);
  }

  lemma AnswerAfterPaging(
    atEnd: State, next: State, at: nat, between: seq<seq<Action>>, p: Pair, afterwards: seq<seq<Action>>)
    requires Inv(atEnd) && Inv(next) && next.specs == atEnd.specs && next.versions == atEnd.versions
    requires atEnd.ledger <= at < next.ledger
    requires var read := Paged(ViewsOf(StatesRead(next, between), p), CLIENT_MARKER);
             read.complete && |afterwards| == |read.all|
    ensures var states := StatesRead(next, between);
            var read := Paged(ViewsOf(states, p), CLIENT_MARKER);
            && 0 < read.calls <= |states|
            && (Selected(RecordsOf(read.all, SeenIn(states[read.calls - 1], afterwards), p), at) == Latest(atEnd, p)
                <==> NewestStandsAlone(atEnd, p))
  {
    var states := StatesRead(next, between);
    var read := Paged(ViewsOf(states, p), CLIENT_MARKER);
    ListedAtLastPage(next, between, p);
    var listed := states[read.calls - 1];
    StepIsLater(atEnd, Close(0, 0));
    assert Later(atEnd, next) && Later(next, listed);
    LaterTransitive(atEnd, next, listed);
    SeenInIsLater(listed, afterwards);
    AnswerAgainstHistory(atEnd, next, listed, at, p, SeenIn(listed, afterwards));
  }

  /** What a completed paging lists is what the registry held at its last page. */
  lemma ListedAtLastPage(next: State, between: seq<seq<Action>>, p: Pair)
    requires Inv(next) && Paged(ViewsOf(StatesRead(next, between), p), CLIENT_MARKER).complete
    ensures var states := StatesRead(next, between);
            var read := Paged(ViewsOf(states, p), CLIENT_MARKER);
            && 0 < read.calls <= |states|
            && Inv(states[read.calls - 1]) && Later(next, states[read.calls - 1])
            && read.all == Kept(VersionsOf(states[read.calls - 1], p), CLIENT_MARKER)
  {
    StatesGrow(next, between);
    ViewsGrow(next, between, p);
    PagedIsLastView(ViewsOf(StatesRead(next, between), p), CLIENT_MARKER);
  }

  /** The states in which the records are read, each reached by actions of its own. */
  function SeenIn(listed: State, afterwards: seq<seq<Action>>): seq<State> {
    seq(|afterwards|, i requires 0 <= i < |afterwards| => Run(listed, afterwards[i]))
  }

  lemma SeenInIsLater(listed: State, afterwards: seq<seq<Action>>)
    requires Inv(listed)
    ensures forall i | 0 <= i < |afterwards| :: Later(listed, SeenIn(listed, afterwards)[i])
  {
    forall i | 0 <= i < |afterwards| ensures Later(listed, SeenIn(listed, afterwards)[i]) {
      RunIsLater(listed, afterwards[i]);
    }
  }

  lemma AnswerAgainstHistory(atEnd: State, next: State, listed: State, at: nat, p: Pair, seenIn: seq<State>)
    requires Inv(atEnd) && Inv(listed) && Later(atEnd, listed) && Later(next, listed)
    requires next.specs == atEnd.specs && next.versions == atEnd.versions && atEnd.ledger <= at < next.ledger
    requires |seenIn| == |Kept(VersionsOf(listed, p), CLIENT_MARKER)|
    requires forall i | 0 <= i < |seenIn| :: Later(listed, seenIn[i])
    ensures Selected(RecordsOf(Kept(VersionsOf(listed, p), CLIENT_MARKER), seenIn, p), at) == Latest(atEnd, p)
       <==> NewestStandsAlone(atEnd, p)
  {
    assert PairInv(atEnd, p) && PairInv(listed, p);
    ListedRecords(atEnd, next, listed, p, at);
    RecordsAreStable(listed, p, Kept(VersionsOf(listed, p), CLIENT_MARKER), seenIn);
    SelectedInHistory(atEnd, p, at);
  }

  // ---------------------------------------------------------------- lookups that miss

  /** Two versions of one pair published in ledger 0: `latest` answers the second, the lookup the first. */
  lemma TwoInOneLedger(p: Pair, h: string, minTtl: nat)
    requires minTtl <= MAX_ENTRY_TTL
    ensures var s := Run(Empty(minTtl), [PublishBy(p, "a", h, "x"), PublishBy(p, "b", h, "x")]);
            && Inv(s) && !NewestStandsAlone(s, p)
            && Kept(VersionsOf(s, p), CLIENT_MARKER) == ["a", "b"] && (p, "a") in s.specs
            && Latest(s, p) == Some(Record("b", h, "x", p.publisher, 0, 0))
            && Selected(RecordsOf(["a", "b"], [s, s], p), 0) == Some(s.specs[(p, "a")])
  {
    var s0 := Empty(minTtl);
    var s1 := Step(s0, PublishBy(p, "a", h, "x"));
    var s2 := Step(s1, PublishBy(p, "b", h, "x"));
    InitialInv(minTtl);
    PublishedInLedgerZero(s0, p, "a", h);
    PublishedInLedgerZero(s1, p, "b", h);
    TwoSteps(s0, PublishBy(p, "a", h, "x"), PublishBy(p, "b", h, "x"));
    KeptPair();
    SelectedFirst(s2.specs[(p, "a")], s2.specs[(p, "b")]);
    RecordsAreStable(s2, p, ["a", "b"], [s2, s2]);
    assert RecordsIn(s2, p, ["a", "b"]) == [s2.specs[(p, "a")], s2.specs[(p, "b")]];
  }

  lemma TwoSteps(s: State, a: Action, b: Action)
    ensures Run(s, [a, b]) == Step(Step(s, a), b)
  {
    assert [a, b][1..] == [b] && [b][1..] == [];
    assert Run(Step(s, a), [b]) == Run(Step(Step(s, a), b), []);
  }

  lemma KeptPair()
    ensures Kept(["a", "b"], CLIENT_MARKER) == ["a", "b"]
  {
    assert ["a", "b"][..1] == ["a"] && ["a"][..0] == [];
    assert Kept(["a"], CLIENT_MARKER) == ["a"];
  }

  lemma SelectedFirst(a: Record, b: Record)
    requires a.publishedAtLedger == 0 && b.publishedAtLedger == 0
    ensures Selected([a, b], 0) == Some(a)
  {
    assert [a, b][..1] == [a] && [a][..0] == [];
    assert Selected([a], 0) == Some(a);
  }

  /** In ledger 0 nothing is archived: a new version is accepted and recorded. */
  lemma PublishedInLedgerZero(s: State, p: Pair, v: Version, h: string)
    requires Inv(s) && v != "" && (p, v) !in s.specs && s.ledger == 0
    requires forall k | k in s.liveUntil :: s.liveUntil[k] >= 0
    ensures var (t, r) := Publish(s, p, v, h, "x");
            && r == Ok(()) && Inv(t)
            && t.specs == s.specs[(p, v) := Record(v, h, "x", p.publisher, s.time, 0)]
            && t.versions == s.versions[p := VersionsOf(s, p) + [v]]
            && forall k | k in t.liveUntil :: t.liveUntil[k] >= 0
  {
    PublishRefreshes(s, p, v, h, "x");
    StepKeepsInv(s, PublishBy(p, v, h, "x"));
  }

  /** Versions published after ledger `at` do not change what is selected. */
  lemma ListedRecords(atEnd: State, next: State, listed: State, p: Pair, at: nat)
    requires PairInv(atEnd, p) && PairInv(listed, p)
    requires Later(atEnd, listed) && Later(next, listed) && next.specs == atEnd.specs && next.versions == atEnd.versions
    requires atEnd.ledger <= at < next.ledger
    ensures var old_, new_ := Kept(VersionsOf(atEnd, p), CLIENT_MARKER), Kept(VersionsOf(listed, p), CLIENT_MARKER);
            && (forall v | v in old_ :: (p, v) in atEnd.specs)
            && (forall v | v in new_ :: (p, v) in listed.specs)
            && Selected(RecordsIn(listed, p, new_), at) == Selected(RecordsIn(atEnd, p, old_), at)
  {
    var vs, ws := VersionsOf(atEnd, p), VersionsOf(listed, p);
    KeptMembers(vs, CLIENT_MARKER);
    KeptMembers(ws, CLIENT_MARKER);
    var added := ws[|vs|..];
    assert ws == vs + added;
    KeptConcat(vs, added, CLIENT_MARKER);
    KeptMembers(added, CLIENT_MARKER);
    AddedLater(atEnd, next, listed, p, at);
    var old_, tail := Kept(vs, CLIENT_MARKER), Kept(added, CLIENT_MARKER);
    SplitRecords(atEnd, listed, p, old_, tail);
    LateRecordsIgnored(RecordsIn(atEnd, p, old_), RecordsIn(listed, p, tail), at);
  }

  lemma AddedLater(atEnd: State, next: State, listed: State, p: Pair, at: nat)
    requires PairInv(atEnd, p) && PairInv(listed, p)
    requires Later(atEnd, listed) && Later(next, listed) && next.specs == atEnd.specs
    requires at < next.ledger
    ensures forall v | v in VersionsOf(listed, p)[|VersionsOf(atEnd, p)|..] ::
              (p, v) in listed.specs && listed.specs[(p, v)].publishedAtLedger > at
  {
    var vs, ws := VersionsOf(atEnd, p), VersionsOf(listed, p);
    forall v | v in ws[|vs|..] ensures (p, v) in listed.specs && listed.specs[(p, v)].publishedAtLedger > at {
      AddedIsNew(vs, ws, v);
      NewIsLater(atEnd, next, listed, p, v);
    }
  }

  lemma AddedIsNew(vs: seq<Version>, ws: seq<Version>, v: Version)
    requires vs <= ws && Distinct(ws) && v in ws[|vs|..]
    ensures v in ws && v !in vs
  {
    var i :| |vs| <= i < |ws| && ws[i] == v;
    assert forall k | 0 <= k < |vs| :: vs[k] == ws[k];
  }

  lemma NewIsLater(atEnd: State, next: State, listed: State, p: Pair, v: Version)
    requires PairInv(atEnd, p) && PairInv(listed, p) && Later(next, listed) && next.specs == atEnd.specs
    requires v in VersionsOf(listed, p) && v !in VersionsOf(atEnd, p)
    ensures (p, v) in listed.specs && listed.specs[(p, v)].publishedAtLedger >= next.ledger
  {
    assert (p, v) !in next.specs;
  }

  lemma SplitRecords(atEnd: State, listed: State, p: Pair, a: seq<Version>, b: seq<Version>)
    requires Later(atEnd, listed)
    requires (forall v | v in a :: (p, v) in atEnd.specs) && (forall v | v in b :: (p, v) in listed.specs)
    ensures forall v | v in a + b :: (p, v) in listed.specs
    ensures RecordsIn(listed, p, a + b) == RecordsIn(atEnd, p, a) + RecordsIn(listed, p, b)
    ensures forall r | r in RecordsIn(listed, p, b) :: exists v | v in b :: r == listed.specs[(p, v)]
  {
  }

  lemma {:induction false} LateRecordsIgnored(a: seq<Record>, b: seq<Record>, at: nat)
    requires forall r | r in b :: r.publishedAtLedger > at
    ensures Selected(a + b, at) == Selected(a, at)
  {
    if b == [] {
      assert a + b == a;
    } else {
      var n := |b| - 1;
      assert (a + b)[..|a| + n] == a + b[..n];
      assert b[n] in b;
      LateRecordsIgnored(a, b[..n], at);
    }
  }

  /** Within one state: the scan finds the latest record exactly when that record stands alone. */
  lemma SelectedInHistory(s: State, p: Pair, at: nat)
    requires Inv(s) && s.ledger <= at
    ensures var kept := Kept(VersionsOf(s, p), CLIENT_MARKER);
            && (forall v | v in kept :: (p, v) in s.specs)
            && (Selected(RecordsIn(s, p, kept), at) == Latest(s, p) <==> NewestStandsAlone(s, p))
  {
    var vs := VersionsOf(s, p);
    var kept := Kept(vs, CLIENT_MARKER);
    assert PairInv(s, p);
    KeptMembers(vs, CLIENT_MARKER);
    LatestIsLast(s, p);
    if vs != [] {
      var n := |vs| - 1;
      var last := vs[n];
      assert vs == vs[..n] + [last];
      if StartsWith(last, CLIENT_MARKER) {
        NotKeptNotSelected(s, p, at);
      } else {
        LastKept(s, p, at);
      }
    }
  }

  lemma NotKeptNotSelected(s: State, p: Pair, at: nat)
    requires Inv(s) && VersionsOf(s, p) != []
    requires StartsWith(VersionsOf(s, p)[|VersionsOf(s, p)| - 1], CLIENT_MARKER)
    ensures var kept := Kept(VersionsOf(s, p), CLIENT_MARKER);
            (forall v | v in kept :: (p, v) in s.specs) && Selected(RecordsIn(s, p, kept), at) != Latest(s, p)
  {
    var vs := VersionsOf(s, p);
    var kept := Kept(vs, CLIENT_MARKER);
    assert PairInv(s, p);
    KeptMembers(vs, CLIENT_MARKER);
    LatestIsLast(s, p);
    var records := RecordsIn(s, p, kept);
    var i := SelectedIsFirstOfNewest(records, at);
    if Selected(records, at).Some? {
      assert records[i].version == kept[i] && kept[i] in kept;
    }
  }

  /** The newest record is selected exactly when no other shares its ledger. */
  lemma NewestSelected(records: seq<Record>, record: Record, at: nat)
    requires record.publishedAtLedger <= at
    requires forall r | r in records :: r != record && r.publishedAtLedger <= record.publishedAtLedger
    ensures Selected(records + [record], at) == Some(record)
       <==> forall r | r in records :: r.publishedAtLedger < record.publishedAtLedger
  {
    assert (records + [record])[..|records|] == records;
    var i := SelectedIsFirstOfNewest(records, at);
    assert forall j | 0 <= j < |records| :: records[j] in records;
    if Selected(records, at).Some? {
      forall r | r in records ensures r.publishedAtLedger <= records[i].publishedAtLedger {
        var j :| 0 <= j < |records| && records[j] == r;
      }
    }
  }

  lemma LastKept(s: State, p: Pair, at: nat)
    requires PairInv(s, p) && s.ledger <= at && VersionsOf(s, p) != []
    requires !StartsWith(VersionsOf(s, p)[|VersionsOf(s, p)| - 1], CLIENT_MARKER)
    ensures var kept := Kept(VersionsOf(s, p), CLIENT_MARKER);
            && (forall v | v in kept :: (p, v) in s.specs)
            && (Selected(RecordsIn(s, p, kept), at) == Latest(s, p) <==> NewestStandsAlone(s, p))
  {
    var vs := VersionsOf(s, p);
    var n := |vs| - 1;
    var last, others := vs[n], Kept(vs[..n], CLIENT_MARKER);
    KeptMembers(vs, CLIENT_MARKER);
    KeptMembers(vs[..n], CLIENT_MARKER);
    LastOfPair(s, p);
    OthersOlder(s, p);
    var records, record := RecordsIn(s, p, others), s.specs[(p, last)];
    assert RecordsIn(s, p, others + [last]) == records + [record];
    NewestSelected(records, record, at);
    OlderRecords(s, p, others, record.publishedAtLedger);
    assert (forall v | v in others :: LedgerOf(s, p, v) < LedgerOf(s, p, last)) <==> NewestStandsAlone(s, p) by {
      assert forall i | 0 <= i < n :: vs[i] in vs[..n];
    }
  }

  lemma OlderRecords(s: State, p: Pair, others: seq<Version>, ledger: nat)
    requires forall v | v in others :: (p, v) in s.specs
    ensures (forall r | r in RecordsIn(s, p, others) :: r.publishedAtLedger < ledger)
       <==> forall v | v in others :: s.specs[(p, v)].publishedAtLedger < ledger
  {
    var records := RecordsIn(s, p, others);
    forall v | v in others ensures s.specs[(p, v)] in records {
      var m :| 0 <= m < |others| && others[m] == v;
      assert records[m] == s.specs[(p, v)];
    }
  }

  lemma OthersOlder(s: State, p: Pair)
    requires PairInv(s, p) && VersionsOf(s, p) != []
    ensures var vs := VersionsOf(s, p);
            var last := vs[|vs| - 1];
            forall v | v in vs[..|vs| - 1] ::
              && (p, v) in s.specs && s.specs[(p, v)].version != last
              && s.specs[(p, v)].publishedAtLedger <= s.specs[(p, last)].publishedAtLedger
  {
    var vs := VersionsOf(s, p);
    forall v | v in vs[..|vs| - 1]
      ensures (p, v) in s.specs && v != vs[|vs| - 1]
      ensures s.specs[(p, v)].publishedAtLedger <= s.specs[(p, vs[|vs| - 1])].publishedAtLedger
    {
      var k :| 0 <= k < |vs| - 1 && vs[k] == v;
    }
  }
}
