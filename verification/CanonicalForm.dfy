/**
 The canonical text is a normal form: two values print alike exactly when they mean the
 same, and exactly the clean values nested at most 64 levels deep are printed at all.
 */
module CanonicalForm {
  import opened Results
  import opened CanonicalJson
  import opened JsonParser

  // ---------------------------------------------------------------- key order is strict and total

  lemma {:induction false} LessTotal(a: Text, b: Text)
    ensures Less(a, b) || a == b || Less(b, a)
    ensures !(Less(a, b) && Less(b, a)) && !Less(a, a)
  {
    if a != [] {
      LessTotal(a[1..], a[1..]);
      if b != [] {
        LessTotal(a[1..], b[1..]);
        assert a == [a[0]] + a[1..] && b == [b[0]] + b[1..];
      }
    }
  }

  lemma {:induction false} LessTransitive(a: Text, b: Text, c: Text)
    requires Less(a, b) && Less(b, c)
    ensures Less(a, c)
  {
    if a != [] && a[0] == b[0] == c[0] {
      LessTransitive(a[1..], b[1..], c[1..]);
    }
  }

  ghost predicate Ascending(ms: seq<Member>) {
    forall i, j | 0 <= i < j < |ms| :: Less(ms[i].key, ms[j].key)
  }

  lemma AscendingCons(m: Member, ms: seq<Member>)
    requires Ascending(ms) && forall x | x in ms :: Less(m.key, x.key)
    ensures Ascending([m] + ms)
  {
  }

  lemma {:induction false} InsertAscending(m: Member, ms: seq<Member>)
    requires Ascending(ms) && forall x | x in ms :: x.key != m.key
    ensures Ascending(InsertMember(m, ms))
  {
    var r := InsertMember(m, ms);
    if ms == [] {
    } else if Less(ms[0].key, m.key) {
      InsertAscending(m, ms[1..]);
      var tail := InsertMember(m, ms[1..]);
      forall x | x in tail ensures Less(ms[0].key, x.key) {
        assert x in multiset(tail);
        assert x == m || x in ms[1..];
      }
      AscendingCons(ms[0], tail);
    } else {
      LessTotal(ms[0].key, m.key);
      assert ms[0] in ms;
      forall x | x in ms ensures Less(m.key, x.key) {
        if x != ms[0] {
          LessTransitive(m.key, ms[0].key, x.key);
        }
      }
      AscendingCons(m, ms);
    }
  }

  lemma {:induction false} SortAscending(ms: seq<Member>)
    requires DistinctKeys(ms)
    ensures Ascending(SortMembers(ms))
  {
    if ms != [] {
      SortAscending(ms[1..]);
      SortedBelongs(ms[1..]);
      InsertAscending(ms[0], SortMembers(ms[1..]));
    }
  }

  // ---------------------------------------------------------------- meaning determines text

  lemma {:induction false} SameText(v: Value, w: Value, depth: nat)
    requires WellFormed(v) && WellFormed(w) && Print(v, depth).Ok? && Print(w, depth).Ok?
    requires Meaning(v) == Meaning(w)
    ensures Print(v, depth) == Print(w, depth)
    decreases v, 1, 0
  {
    match v
    case Arr(items) =>
      SameItems(v, v.items, w, w.items, depth);
    case Obj(_, _) =>
      SortedBelongs(v.members);
      SortedBelongs(w.members);
      SortAscending(v.members);
      SortAscending(w.members);
      MeaningOfPermutation(v, SortMembers(v.members), v.members);
      MeaningOfPermutation(w, SortMembers(w.members), w.members);
      SameLength(v.members);
      SameMembers(v, SortMembers(v.members), w, SortMembers(w.members), depth);
    case _ =>
  }

  lemma {:induction false} SameItems(v: Value, a: seq<Value>, w: Value, b: seq<Value>, depth: nat)
    requires v.Arr? && WellFormed(v) && forall x | x in a :: x in v.items
    requires w.Arr? && WellFormed(w) && forall x | x in b :: x in w.items
    requires PrintItems(v, a, depth).Ok? && PrintItems(w, b, depth).Ok?
    requires ItemsMeaning(v, a) == ItemsMeaning(w, b)
    ensures PrintItems(v, a, depth) == PrintItems(w, b, depth)
    decreases v, 0, |a|
  {
    if a != [] && b != [] {
      ItemsUnfold(v, a, depth);
      ItemsUnfold(w, b, depth);
      assert ItemsMeaning(v, a)[0] == Meaning(a[0]) && ItemsMeaning(w, b)[0] == Meaning(b[0]);
      assert ItemsMeaning(v, a)[1..] == ItemsMeaning(v, a[1..]);
      assert ItemsMeaning(w, b)[1..] == ItemsMeaning(w, b[1..]);
      SameText(a[0], b[0], depth + 1);
      SameItems(v, a[1..], w, b[1..], depth);
    }
  }

  /** In an ascending list a key below the head's is not present at all. */
  lemma KeyNotBelowHead(owner: Value, ms: seq<Member>, k: Text)
    requires owner.Obj? && (forall m | m in ms :: m in owner.members) && Ascending(ms) && DistinctKeys(ms)
    requires ms != [] && Less(k, ms[0].key)
    ensures k !in MembersMeaning(owner, ms)
  {
    MembersMeaningAt(owner, ms);
    if k in MembersMeaning(owner, ms) {
      var i :| 0 <= i < |ms| && ms[i].key == k;
      LessTotal(k, ms[0].key);
    }
  }

  lemma AscendingDistinct(ms: seq<Member>)
    requires Ascending(ms)
    ensures DistinctKeys(ms)
  {
    forall i, j | 0 <= i < j < |ms| ensures ms[i].key != ms[j].key {
      LessTotal(ms[i].key, ms[j].key);
    }
  }

  lemma HeadMeaning(owner: Value, ms: seq<Member>)
    requires owner.Obj? && (forall m | m in ms :: m in owner.members) && Ascending(ms)
    requires ms != [] && ms[0].value != Undefined
    ensures var all := MembersMeaning(owner, ms);
            && ms[0].key in all && all[ms[0].key] == Meaning(ms[0].value)
            && MembersMeaning(owner, ms[1..]) == all - {ms[0].key}
  {
    AscendingDistinct(ms);
    MembersMeaningAt(owner, ms);
    MembersMeaningAt(owner, ms[1..]);
    assert ms[0] in ms;
    var rest := MembersMeaning(owner, ms[1..]);
    assert ms[0].key !in rest;
    assert MembersMeaning(owner, ms) - {ms[0].key} == rest;
  }

  lemma {:induction false} SameMembers(v: Value, a: seq<Member>, w: Value, b: seq<Member>, depth: nat)
    requires v.Obj? && WellFormed(v) && Ascending(a) && forall m | m in a :: m in v.members
    requires w.Obj? && WellFormed(w) && Ascending(b) && forall m | m in b :: m in w.members
    requires PrintMembers(v, a, depth).Ok? && PrintMembers(w, b, depth).Ok?
    requires MembersMeaning(v, a) == MembersMeaning(w, b)
    ensures PrintMembers(v, a, depth) == PrintMembers(w, b, depth)
    decreases v, 0, |a| + |b|, 1
  {
    if a != [] && a[0].value == Undefined {
      UndefinedSkipped(v, a, depth);
      SameMembers(v, a[1..], w, b, depth);
    } else if b != [] && b[0].value == Undefined {
      UndefinedSkipped(w, b, depth);
      SameMembers(v, a, w, b[1..], depth);
    } else {
      SameEmptiness(v, a, w, b);
      if a != [] {
        SameDefined(v, a, w, b, depth);
      }
    }
  }

  lemma {:induction false} SameDefined(v: Value, a: seq<Member>, w: Value, b: seq<Member>, depth: nat)
    requires v.Obj? && WellFormed(v) && Ascending(a) && forall m | m in a :: m in v.members
    requires w.Obj? && WellFormed(w) && Ascending(b) && forall m | m in b :: m in w.members
    requires PrintMembers(v, a, depth).Ok? && PrintMembers(w, b, depth).Ok?
    requires a != [] && a[0].value != Undefined && b != [] && b[0].value != Undefined
    requires MembersMeaning(v, a) == MembersMeaning(w, b)
    ensures PrintMembers(v, a, depth) == PrintMembers(w, b, depth)
    decreases v, 0, |a| + |b|, 0
  {
    HeadsAgree(v, a, w, b);
    MembersUnfold(v, a, depth);
    MembersUnfold(w, b, depth);
    SameText(a[0].value, b[0].value, depth + 1);
    SameMembers(v, a[1..], w, b[1..], depth);
    SameFirst(v, a, w, b, depth);
  }

  lemma SameFirst(v: Value, a: seq<Member>, w: Value, b: seq<Member>, depth: nat)
    requires v.Obj? && forall m | m in a :: m in v.members
    requires w.Obj? && forall m | m in b :: m in w.members
    requires PrintMembers(v, a, depth).Ok? && PrintMembers(w, b, depth).Ok?
    requires a != [] && a[0].value != Undefined && b != [] && b[0].value != Undefined && a[0].key == b[0].key
    requires Print(a[0].value, depth + 1) == Print(b[0].value, depth + 1)
    requires PrintMembers(v, a[1..], depth) == PrintMembers(w, b[1..], depth)
    ensures PrintMembers(v, a, depth) == PrintMembers(w, b, depth)
  {
    MembersUnfold(v, a, depth);
    MembersUnfold(w, b, depth);
  }

  lemma UndefinedSkipped(owner: Value, ms: seq<Member>, depth: nat)
    requires owner.Obj? && (forall m | m in ms :: m in owner.members) && Ascending(ms)
    requires ms != [] && ms[0].value == Undefined
    ensures forall m | m in ms[1..] :: m in owner.members
    ensures PrintMembers(owner, ms, depth) == PrintMembers(owner, ms[1..], depth)
    ensures MembersMeaning(owner, ms) == MembersMeaning(owner, ms[1..])
    ensures Ascending(ms[1..])
  {
  }

  lemma SameEmptiness(v: Value, a: seq<Member>, w: Value, b: seq<Member>)
    requires v.Obj? && Ascending(a) && forall m | m in a :: m in v.members
    requires w.Obj? && Ascending(b) && forall m | m in b :: m in w.members
    requires a != [] ==> a[0].value != Undefined
    requires b != [] ==> b[0].value != Undefined
    requires MembersMeaning(v, a) == MembersMeaning(w, b)
    ensures a == [] <==> b == []
  {
    if a != [] {
      HeadMeaning(v, a);
    }
    if b != [] {
      HeadMeaning(w, b);
    }
  }

  /** Ascending lists with the same meaning have the same first key and value. */
  lemma HeadsAgree(v: Value, a: seq<Member>, w: Value, b: seq<Member>)
    requires v.Obj? && Ascending(a) && forall m | m in a :: m in v.members
    requires w.Obj? && Ascending(b) && forall m | m in b :: m in w.members
    requires a != [] && b != [] && a[0].value != Undefined && b[0].value != Undefined
    requires MembersMeaning(v, a) == MembersMeaning(w, b)
    ensures a[0].key == b[0].key && Meaning(a[0].value) == Meaning(b[0].value)
    ensures MembersMeaning(v, a[1..]) == MembersMeaning(w, b[1..])
  {
    AscendingDistinct(a);
    AscendingDistinct(b);
    HeadMeaning(v, a);
    HeadMeaning(w, b);
    LessTotal(a[0].key, b[0].key);
    if Less(a[0].key, b[0].key) {
      KeyNotBelowHead(w, b, a[0].key);
    } else if Less(b[0].key, a[0].key) {
      KeyNotBelowHead(v, a, b[0].key);
    }
  }

  /** Canonical texts are equal exactly when the values are equal as JSON. */
  lemma TextIsNormalForm(v: Value, w: Value)
    requires WellFormed(v) && WellFormed(w) && CanonicalizeJson(v).Ok? && CanonicalizeJson(w).Ok?
    ensures CanonicalizeJson(v) == CanonicalizeJson(w) <==> Meaning(v) == Meaning(w)
  {
    ParserInvertsSerializer(v);
    ParserInvertsSerializer(w);
    if Meaning(v) == Meaning(w) {
      SameText(v, w, 0);
    }
  }

  // ---------------------------------------------------------------- what is accepted

  /** How deeply the value nests, ignoring absent members. */
  function Nesting(v: Value): nat {
    match v
    case Arr(items) => ItemsNesting(v, items)
    case Obj(_, ms) => MembersNesting(v, ms)
    case _ => 0
  }

  function ItemsNesting(owner: Value, items: seq<Value>): nat
    requires owner.Arr? && forall v | v in items :: v in owner.items
    decreases owner, 0, |items|
  {
    if items == [] then 0
    else
      ItemIsSmaller(owner, items[0]);
      Max(1 + Nesting(items[0]), ItemsNesting(owner, items[1..]))
  }

  function MembersNesting(owner: Value, ms: seq<Member>): nat
    requires owner.Obj? && forall m | m in ms :: m in owner.members
    decreases owner, 0, |ms|
  {
    if ms == [] then 0
    else if ms[0].value == Undefined then MembersNesting(owner, ms[1..])
    else
      MemberIsSmaller(owner, ms[0]);
      Max(1 + Nesting(ms[0].value), MembersNesting(owner, ms[1..]))
  }

  function Max(a: nat, b: nat): nat {
    if a < b then b else a
  }

  /** Nothing outside the JSON data model occurs, except undefined members of plain objects. */
  predicate Clean(v: Value) {
    match v
    case Null => true
    case Bool(_) => true
    case Num(_) => true
    case Str(s) => !HasLoneSurrogate(s)
    case Arr(items) => forall x | x in items :: Clean(x)
    case Obj(plain, ms) =>
      plain && forall m | m in ms && m.value != Undefined :: !HasLoneSurrogate(m.key) && Clean(m.value)
    case NonFinite => false
    case Undefined => false
    case Other => false
  }

  lemma {:induction false} PrintedExactly(v: Value, depth: nat)
    ensures Print(v, depth).Ok? <==> Clean(v) && depth + Nesting(v) <= MAX_DEPTH
    decreases v, 1, 0
  {
    match v
    case Arr(items) => ItemsPrintedExactly(v, items, depth);
    case Obj(_, ms) =>
      SortedBelongs(ms);
      MembersPrintedExactly(v, SortMembers(ms), depth);
      NestingOfPermutation(v, SortMembers(ms), ms);
      forall m ensures m in ms <==> m in SortMembers(ms) {
        assert m in ms <==> m in multiset(ms);
      }
    case _ =>
  }

  lemma {:induction false} ItemsPrintedExactly(owner: Value, items: seq<Value>, depth: nat)
    requires owner.Arr? && forall v | v in items :: v in owner.items
    ensures PrintItems(owner, items, depth).Ok?
        <==> (forall x | x in items :: Clean(x)) && (items == [] || depth + ItemsNesting(owner, items) <= MAX_DEPTH)
    decreases owner, 0, |items|
  {
    if items != [] {
      ItemIsSmaller(owner, items[0]);
      PrintedExactly(items[0], depth + 1);
      ItemsPrintedExactly(owner, items[1..], depth);
      assert forall x :: x in items <==> x == items[0] || x in items[1..];
    }
  }

  predicate CleanMember(m: Member) {
    m.value != Undefined ==> !HasLoneSurrogate(m.key) && Clean(m.value)
  }

  lemma {:induction false} MembersPrintedExactly(owner: Value, ms: seq<Member>, depth: nat)
    requires owner.Obj? && forall m | m in ms :: m in owner.members
    ensures PrintMembers(owner, ms, depth).Ok?
        <==> (forall m | m in ms :: CleanMember(m))
             && (Defined(ms) == [] || depth + MembersNesting(owner, ms) <= MAX_DEPTH)
    ensures Defined(ms) == [] ==> MembersNesting(owner, ms) == 0
    decreases owner, 0, |ms|
  {
    if ms != [] {
      MembersPrintedExactly(owner, ms[1..], depth);
      assert (forall m | m in ms :: CleanMember(m))
        <==> CleanMember(ms[0]) && forall m | m in ms[1..] :: CleanMember(m) by {
        assert forall x :: x in ms <==> x == ms[0] || x in ms[1..];
      }
      if ms[0].value != Undefined {
        MemberIsSmaller(owner, ms[0]);
        PrintedExactly(ms[0].value, depth + 1);
      }
    }
  }

  lemma {:induction false} NestingBound(owner: Value, ms: seq<Member>, n: nat)
    requires owner.Obj? && forall m | m in ms :: m in owner.members
    ensures MembersNesting(owner, ms) <= n
       <==> forall m | m in ms && m.value != Undefined :: 1 + Nesting(m.value) <= n
  {
    if ms != [] {
      NestingBound(owner, ms[1..], n);
      assert forall x :: x in ms <==> x == ms[0] || x in ms[1..];
    }
  }

  lemma NestingOfPermutation(owner: Value, a: seq<Member>, b: seq<Member>)
    requires owner.Obj? && (forall m | m in a :: m in owner.members) && (forall m | m in b :: m in owner.members)
    requires multiset(a) == multiset(b)
    ensures MembersNesting(owner, a) == MembersNesting(owner, b)
  {
    forall m ensures m in a <==> m in b {
      assert m in a <==> m in multiset(a);
      assert m in b <==> m in multiset(b);
    }
    NestingBound(owner, a, MembersNesting(owner, b));
    NestingBound(owner, b, MembersNesting(owner, b));
    NestingBound(owner, b, MembersNesting(owner, a));
    NestingBound(owner, a, MembersNesting(owner, a));
  }

  /** The serializer accepts exactly the clean values nested at most 64 levels deep. */
  lemma AcceptedExactly(v: Value)
    ensures CanonicalizeJson(v).Ok? <==> Clean(v) && Nesting(v) <= MAX_DEPTH
  {
    PrintedExactly(v, 0);
  }

  // ---------------------------------------------------------------- insertion order

  function KeysOf(ms: seq<Member>): set<Text> {
    set m | m in ms :: m.key
  }

  function ValueAt(ms: seq<Member>, k: Text): (r: Option<Value>)
    ensures r.Some? ==> Member(k, r.value) in ms
    ensures r.None? ==> k !in KeysOf(ms)
  {
    if ms == [] then None
    else if ms[0].key == k then Some(ms[0].value)
    else ValueAt(ms[1..], k)
  }

  /** The same value with the members of its objects, at any depth, in another order. */
  predicate Reordered(v: Value, w: Value)
    decreases v
  {
    match (v, w)
    case (Arr(a), Arr(b)) => |a| == |b| && forall i | 0 <= i < |a| :: Reordered(a[i], b[i])
    case (Obj(p, ms), Obj(q, ns)) =>
      && p == q && KeysOf(ms) == KeysOf(ns)
      && forall i | 0 <= i < |ms| ::
           ValueAt(ns, ms[i].key).Some? && Reordered(ms[i].value, ValueAt(ns, ms[i].key).value)
    case _ => v == w
  }

  /** Equal keys lead to values in the relation. */
  ghost predicate KeyByKey(ms: seq<Member>, ns: seq<Member>, r: (Value, Value) -> bool) {
    && KeysOf(ms) == KeysOf(ns) && DistinctKeys(ns)
    && forall i | 0 <= i < |ms| :: ValueAt(ns, ms[i].key).Some? && r(ms[i].value, ValueAt(ns, ms[i].key).value)
  }

  lemma LikeOf(ms: seq<Member>, ns: seq<Member>, r: (Value, Value) -> bool, m: Member) returns (n: Member)
    requires KeyByKey(ms, ns, r) && m in ms
    ensures n in ns && n.key == m.key && r(m.value, n.value)
  {
    var i :| 0 <= i < |ms| && ms[i] == m;
    n := Member(m.key, ValueAt(ns, m.key).value);
  }

  lemma LikeOfBack(ms: seq<Member>, ns: seq<Member>, r: (Value, Value) -> bool, n: Member) returns (m: Member)
    requires KeyByKey(ms, ns, r) && n in ns
    ensures m in ms && m.key == n.key && r(m.value, n.value)
  {
    assert n.key in KeysOf(ms);
    m :| m in ms && m.key == n.key;
    var i :| 0 <= i < |ms| && ms[i] == m;
    var there := Member(n.key, ValueAt(ns, n.key).value);
    OneOfEachKey(ns, there, n);
  }

  lemma OneOfEachKey(ns: seq<Member>, a: Member, b: Member)
    requires DistinctKeys(ns) && a in ns && b in ns && a.key == b.key
    ensures a == b
  {
    var i :| 0 <= i < |ns| && ns[i] == a;
    var j :| 0 <= j < |ns| && ns[j] == b;
  }

  predicate SameMeaning(x: Value, y: Value) {
    Meaning(x) == Meaning(y) && (x == Undefined <==> y == Undefined)
  }

  lemma {:induction false} ReorderedMeaning(v: Value, w: Value)
    requires WellFormed(v) && WellFormed(w) && Reordered(v, w)
    ensures SameMeaning(v, w)
    decreases v
  {
    match (v, w)
    case (Arr(a), Arr(b)) =>
      forall i | 0 <= i < |a| ensures Meaning(a[i]) == Meaning(b[i]) {
        ReorderedMeaning(a[i], b[i]);
      }
      ItemsSameMeaning(v, a, w, b);
    case (Obj(_, ms), Obj(_, ns)) =>
      forall i | 0 <= i < |ms| ensures SameMeaning(ms[i].value, ValueAt(ns, ms[i].key).value) {
        MemberIn(ns, ms[i].key);
        ReorderedMeaning(ms[i].value, ValueAt(ns, ms[i].key).value);
      }
      var r := (x: Value, y: Value) => SameMeaning(x, y);
      MembersSameMeaning(v, w, r);
    case _ =>
  }

  lemma MemberIn(ns: seq<Member>, k: Text)
    requires ValueAt(ns, k).Some? && forall i | 0 <= i < |ns| :: WellFormed(ns[i].value)
    ensures WellFormed(ValueAt(ns, k).value)
  {
    var i :| 0 <= i < |ns| && ns[i] == Member(k, ValueAt(ns, k).value);
  }

  lemma MeaningForward(v: Value, w: Value, r: (Value, Value) -> bool, k: Text)
    requires v.Obj? && w.Obj? && DistinctKeys(v.members) && KeyByKey(v.members, w.members, r)
    requires (forall x, y | r(x, y) :: SameMeaning(x, y)) && k in MembersMeaning(v, v.members)
    ensures k in MembersMeaning(w, w.members) && MembersMeaning(v, v.members)[k] == MembersMeaning(w, w.members)[k]
  {
    MembersMeaningAt(v, v.members);
    MembersMeaningAt(w, w.members);
    var m :| m in v.members && m.value != Undefined && m.key == k;
    var n := LikeOf(v.members, w.members, r, m);
    assert SameMeaning(m.value, n.value);
  }

  lemma MeaningBack(v: Value, w: Value, r: (Value, Value) -> bool, k: Text)
    requires v.Obj? && w.Obj? && DistinctKeys(v.members) && KeyByKey(v.members, w.members, r)
    requires (forall x, y | r(x, y) :: SameMeaning(x, y)) && k in MembersMeaning(w, w.members)
    ensures k in MembersMeaning(v, v.members)
  {
    MembersMeaningAt(v, v.members);
    MembersMeaningAt(w, w.members);
    var n :| n in w.members && n.value != Undefined && n.key == k;
    var m := LikeOfBack(v.members, w.members, r, n);
    assert SameMeaning(m.value, n.value);
  }

  lemma MembersSameMeaning(v: Value, w: Value, r: (Value, Value) -> bool)
    requires v.Obj? && w.Obj? && DistinctKeys(v.members) && KeyByKey(v.members, w.members, r)
    requires forall x, y | r(x, y) :: SameMeaning(x, y)
    ensures MembersMeaning(v, v.members) == MembersMeaning(w, w.members)
  {
    var p, q := MembersMeaning(v, v.members), MembersMeaning(w, w.members);
    forall k | k in p ensures k in q && p[k] == q[k] {
      MeaningForward(v, w, r, k);
    }
    forall k | k in q ensures k in p {
      MeaningBack(v, w, r, k);
    }
  }

  lemma {:induction false} ItemsSameMeaning(v: Value, a: seq<Value>, w: Value, b: seq<Value>)
    requires v.Arr? && w.Arr? && (forall x | x in a :: x in v.items) && (forall x | x in b :: x in w.items)
    requires |a| == |b| && forall i | 0 <= i < |a| :: Meaning(a[i]) == Meaning(b[i])
    ensures ItemsMeaning(v, a) == ItemsMeaning(w, b)
    decreases |a|
  {
    if a != [] {
      ItemsSameMeaning(v, a[1..], w, b[1..]);
    }
  }

  predicate SameNesting(x: Value, y: Value) {
    Nesting(x) == Nesting(y) && (x == Undefined <==> y == Undefined)
  }

  lemma {:induction false} ReorderedNesting(v: Value, w: Value)
    requires WellFormed(w) && Reordered(v, w)
    ensures SameNesting(v, w)
    decreases v
  {
    match (v, w)
    case (Arr(a), Arr(b)) =>
      forall i | 0 <= i < |a| ensures Nesting(a[i]) == Nesting(b[i]) {
        ReorderedNesting(a[i], b[i]);
      }
      ItemsSameNesting(v, a, w, b);
    case (Obj(_, ms), Obj(_, ns)) =>
      forall i | 0 <= i < |ms| ensures SameNesting(ms[i].value, ValueAt(ns, ms[i].key).value) {
        MemberIn(ns, ms[i].key);
        ReorderedNesting(ms[i].value, ValueAt(ns, ms[i].key).value);
      }
      var r := (x: Value, y: Value) => SameNesting(x, y);
      MembersSameNesting(v, w, r);
    case _ =>
  }

  lemma {:induction false} ItemsSameNesting(v: Value, a: seq<Value>, w: Value, b: seq<Value>)
    requires v.Arr? && w.Arr? && (forall x | x in a :: x in v.items) && (forall x | x in b :: x in w.items)
    requires |a| == |b| && forall i | 0 <= i < |a| :: Nesting(a[i]) == Nesting(b[i])
    ensures ItemsNesting(v, a) == ItemsNesting(w, b)
    decreases |a|
  {
    if a != [] {
      ItemsSameNesting(v, a[1..], w, b[1..]);
    }
  }

  lemma MembersSameNesting(v: Value, w: Value, r: (Value, Value) -> bool)
    requires v.Obj? && w.Obj? && KeyByKey(v.members, w.members, r)
    requires forall x, y | r(x, y) :: SameNesting(x, y)
    ensures MembersNesting(v, v.members) == MembersNesting(w, w.members)
  {
    var k, n := MembersNesting(v, v.members), MembersNesting(w, w.members);
    NestingBound(w, w.members, n);
    forall m | m in v.members && m.value != Undefined ensures 1 + Nesting(m.value) <= n {
      var like := LikeOf(v.members, w.members, r, m);
      assert SameNesting(m.value, like.value);
    }
    NestingBound(v, v.members, n);
    NestingBound(v, v.members, k);
    forall m | m in w.members && m.value != Undefined ensures 1 + Nesting(m.value) <= k {
      var like := LikeOfBack(v.members, w.members, r, m);
      assert SameNesting(like.value, m.value);
    }
    NestingBound(w, w.members, k);
  }

  predicate SameClean(x: Value, y: Value) {
    (Clean(x) <==> Clean(y)) && (x == Undefined <==> y == Undefined)
  }

  lemma {:induction false} ReorderedClean(v: Value, w: Value)
    requires WellFormed(w) && Reordered(v, w)
    ensures SameClean(v, w)
    decreases v
  {
    match (v, w)
    case (Arr(a), Arr(b)) =>
      forall i | 0 <= i < |a| ensures Clean(a[i]) <==> Clean(b[i]) {
        ReorderedClean(a[i], b[i]);
      }
      ItemsSameClean(a, b);
    case (Obj(_, ms), Obj(_, ns)) =>
      forall i | 0 <= i < |ms| ensures SameClean(ms[i].value, ValueAt(ns, ms[i].key).value) {
        MemberIn(ns, ms[i].key);
        ReorderedClean(ms[i].value, ValueAt(ns, ms[i].key).value);
      }
      var r := (x: Value, y: Value) => SameClean(x, y);
      MembersSameClean(ms, ns, r);
      CleanByMembers(v);
      CleanByMembers(w);
    case _ =>
  }

  lemma ItemsSameClean(a: seq<Value>, b: seq<Value>)
    requires |a| == |b| && forall i | 0 <= i < |a| :: Clean(a[i]) <==> Clean(b[i])
    ensures (forall x | x in a :: Clean(x)) <==> (forall x | x in b :: Clean(x))
  {
    if forall x | x in a :: Clean(x) {
      forall x | x in b ensures Clean(x) {
        var i :| 0 <= i < |b| && b[i] == x;
        assert a[i] in a;
      }
    }
    if forall x | x in b :: Clean(x) {
      forall x | x in a ensures Clean(x) {
        var i :| 0 <= i < |a| && a[i] == x;
        assert b[i] in b;
      }
    }
  }

  lemma MembersSameClean(ms: seq<Member>, ns: seq<Member>, r: (Value, Value) -> bool)
    requires KeyByKey(ms, ns, r) && forall x, y | r(x, y) :: SameClean(x, y)
    ensures (forall n | n in ns :: CleanMember(n)) <==> forall m | m in ms :: CleanMember(m)
  {
    if forall n | n in ns :: CleanMember(n) {
      forall m | m in ms ensures CleanMember(m) {
        var n := LikeOf(ms, ns, r, m);
        assert SameClean(m.value, n.value) && CleanMember(n);
      }
    }
    if forall m | m in ms :: CleanMember(m) {
      forall n | n in ns ensures CleanMember(n) {
        var m := LikeOfBack(ms, ns, r, n);
        assert SameClean(m.value, n.value) && CleanMember(m);
      }
    }
  }

  lemma CleanByMembers(v: Value)
    requires v.Obj?
    ensures Clean(v) <==> v.plain && forall m | m in v.members :: CleanMember(m)
  {
  }

  /** Reordering the members of objects, at every depth, changes neither acceptance nor text. */
  lemma InsertionOrderIrrelevant(v: Value, w: Value)
    requires WellFormed(v) && WellFormed(w) && Reordered(v, w)
    ensures CanonicalizeJson(v).Ok? <==> CanonicalizeJson(w).Ok?
    ensures CanonicalizeJson(v).Ok? ==> CanonicalizeJson(v) == CanonicalizeJson(w)
  {
    ReorderedMeaning(v, w);
    ReorderedNesting(v, w);
    ReorderedClean(v, w);
    AcceptedExactly(v);
    AcceptedExactly(w);
    if CanonicalizeJson(v).Ok? {
      TextIsNormalForm(v, w);
    }
  }
}
