/**
 Disbursement with a token that may call back. The token's code is arbitrary: on a balance
 query or a transfer it may make further disburse calls, report any balance, and trap.
 */
module PayrollReentrancy {
  import opened Results
  import opened Payroll

  /** What the token does during one disburse call. */
  datatype Script = Script(onBalance: seq<Script>, reported: int, onTransfers: seq<Reaction>)

  /** What the token does during one transfer: calls back, then returns or traps. */
  datatype Reaction = Reaction(nested: seq<Script>, traps: bool)

  /** `consumed` lists the windows in the order they were consumed, with the time. */
  datatype Windows = Windows(next: nat, consumed: seq<(nat, nat)>)

  predicate Payable(c: Config, next: nat, now: nat) {
    DueAt(c, next) <= U64_MAX && now >= DueAt(c, next) && Total(c.recipients) <= I128_MAX
  }

  /** One disburse call; a failed call leaves nothing behind, whatever happened inside it. */
  function Disbursed(w: Windows, c: Config, now: nat, token: Script): Windows
    decreases token, 1
  {
    if !Payable(c, w.next, now) then w
    else
      var queried := AllDisbursed(w, c, now, token.onBalance);
      if token.reported < Total(c.recipients) then w
      else
        var advanced := Windows(w.next + 1, queried.consumed + [(w.next, now)]);
        match AfterTransfers(advanced, c, now, token.onTransfers, |c.recipients|)
        case Some(done) => done
        case None => w
  }

  function AllDisbursed(w: Windows, c: Config, now: nat, calls: seq<Script>): Windows
    decreases calls, 0
  {
    if calls == [] then w
    else AllDisbursed(Disbursed(w, c, now, calls[0]), c, now, calls[1..])
  }

  /** The transfer loop: None when the token traps in one of the `left` transfers. */
  function AfterTransfers(w: Windows, c: Config, now: nat, reactions: seq<Reaction>, left: nat): Option<Windows>
    decreases reactions, 0
  {
    if left == 0 || reactions == [] then Some(w)
    else if reactions[0].traps then None
    else AfterTransfers(AllDisbursed(w, c, now, reactions[0].nested), c, now, reactions[1..], left - 1)
  }

  /** One transaction: some account calls disburse at a ledger time. */
  datatype Transaction = Transaction(now: nat, token: Script)

  function Replay(c: Config, txs: seq<Transaction>): Windows {
    if txs == [] then Windows(0, [])
    else
      var n := |txs| - 1;
      Disbursed(Replay(c, txs[..n]), c, txs[n].now, txs[n].token)
  }

  // ---------------------------------------------------------------- the condition on scripts

  /** The window a successful call leaves next, if it succeeds; its balance query has no say in it. */
  function Pays(c: Config, next: nat, now: nat, token: Script): Option<nat>
    decreases token, 1
  {
    if !Payable(c, next, now) || token.reported < Total(c.recipients) then None
    else PaysTransfers(c, next + 1, now, token.onTransfers, |c.recipients|)
  }

  function PaysAll(c: Config, next: nat, now: nat, calls: seq<Script>): nat
    decreases calls, 0
  {
    if calls == [] then next
    else
      match Pays(c, next, now, calls[0])
      case Some(n) => PaysAll(c, n, now, calls[1..])
      case None => PaysAll(c, next, now, calls[1..])
  }

  function PaysTransfers(c: Config, next: nat, now: nat, reactions: seq<Reaction>, left: nat): Option<nat>
    decreases reactions, 0
  {
    if left == 0 || reactions == [] then Some(next)
    else if reactions[0].traps then None
    else PaysTransfers(c, PaysAll(c, next, now, reactions[0].nested), now, reactions[1..], left - 1)
  }

  /** One of these calls succeeds when made at this window and time. */
  predicate OnePays(c: Config, next: nat, now: nat, calls: seq<Script>) {
    exists k | 0 <= k < |calls| :: Pays(c, next, now, calls[k]).Some?
  }

  /**
   The hazard: a call that succeeds although a call in its balance query succeeds too, or in
   one of whose transfers that happens. It is read off the script, the window and the time.
   */
  predicate Hazard(c: Config, next: nat, now: nat, token: Script)
    decreases token, 1
  {
    && Pays(c, next, now, token).Some?
    && (|| OnePays(c, next, now, token.onBalance)
        || HazardInTransfers(c, next + 1, now, token.onTransfers, |c.recipients|))
  }

  predicate HazardInCalls(c: Config, next: nat, now: nat, calls: seq<Script>)
    decreases calls, 0
  {
    calls != [] &&
    match Pays(c, next, now, calls[0])
    case Some(n) => Hazard(c, next, now, calls[0]) || HazardInCalls(c, n, now, calls[1..])
    case None => HazardInCalls(c, next, now, calls[1..])
  }

  predicate HazardInTransfers(c: Config, next: nat, now: nat, reactions: seq<Reaction>, left: nat)
    decreases reactions, 0
  {
    left != 0 && reactions != [] &&
    (HazardInCalls(c, next, now, reactions[0].nested)
     || HazardInTransfers(c, PaysAll(c, next, now, reactions[0].nested), now, reactions[1..], left - 1))
  }

  /** The window that is next after some transactions. */
  function NextAfter(c: Config, txs: seq<Transaction>): nat {
    if txs == [] then 0
    else
      var n := |txs| - 1;
      var before := NextAfter(c, txs[..n]);
      match Pays(c, before, txs[n].now, txs[n].token)
      case Some(next) => next
      case None => before
  }

  /** Some transaction of the sequence meets the hazard at the window it finds next. */
  ghost predicate Hazardous(c: Config, txs: seq<Transaction>) {
    exists i | 0 <= i < |txs| :: HazardAt(c, txs, i)
  }

  predicate HazardAt(c: Config, txs: seq<Transaction>, i: nat)
    requires i < |txs|
  {
    Hazard(c, NextAfter(c, txs[..i]), txs[i].now, txs[i].token)
  }

  // ---------------------------------------------------------------- calls succeed as `Pays` says

  lemma {:induction false} DisbursedAsPays(w: Windows, c: Config, now: nat, token: Script)
    ensures match Pays(c, w.next, now, token)
            case None => Disbursed(w, c, now, token) == w
            case Some(n) => Disbursed(w, c, now, token).next == n && w.consumed < Disbursed(w, c, now, token).consumed
    decreases token, 1
  {
    if Payable(c, w.next, now) && token.reported >= Total(c.recipients) {
      var queried := AllDisbursed(w, c, now, token.onBalance);
      AllDisbursedAsPays(w, c, now, token.onBalance);
      TransfersAsPay(Windows(w.next + 1, queried.consumed + [(w.next, now)]), c, now, token.onTransfers, |c.recipients|);
    }
  }

  lemma {:induction false} AllDisbursedAsPays(w: Windows, c: Config, now: nat, calls: seq<Script>)
    ensures var r := AllDisbursed(w, c, now, calls);
            && r.next == PaysAll(c, w.next, now, calls)
            && w.consumed <= r.consumed
            && (OnePays(c, w.next, now, calls) ==> w.consumed < r.consumed)
            && (!OnePays(c, w.next, now, calls) ==> r == w)
    decreases calls, 0
  {
    if calls != [] {
      DisbursedAsPays(w, c, now, calls[0]);
      AllDisbursedAsPays(Disbursed(w, c, now, calls[0]), c, now, calls[1..]);
      assert forall k | 1 <= k < |calls| :: calls[k] == calls[1..][k - 1];
    }
  }

  lemma {:induction false} TransfersAsPay(w: Windows, c: Config, now: nat, reactions: seq<Reaction>, left: nat)
    ensures match PaysTransfers(c, w.next, now, reactions, left)
            case None => AfterTransfers(w, c, now, reactions, left) == None
            case Some(n) =>
              && AfterTransfers(w, c, now, reactions, left).Some?
              && AfterTransfers(w, c, now, reactions, left).value.next == n
              && w.consumed <= AfterTransfers(w, c, now, reactions, left).value.consumed
    decreases reactions, 0
  {
    if left != 0 && reactions != [] && !reactions[0].traps {
      AllDisbursedAsPays(w, c, now, reactions[0].nested);
      TransfersAsPay(AllDisbursed(w, c, now, reactions[0].nested), c, now, reactions[1..], left - 1);
    }
  }

  lemma {:induction false} NextAfterIsNext(c: Config, txs: seq<Transaction>)
    ensures NextAfter(c, txs) == Replay(c, txs).next
  {
    if txs != [] {
      var n := |txs| - 1;
      NextAfterIsNext(c, txs[..n]);
      DisbursedAsPays(Replay(c, txs[..n]), c, txs[n].now, txs[n].token);
    }
  }

  /**
   A call succeeds exactly when its window is due, the balance reported covers the sum of the
   lines, and none of its transfers, one a recipient, traps; what the token calls back has no
   say. It then consumes its window, and it leaves no trace otherwise.
   */
  lemma DisbursesExactly(w: Windows, c: Config, now: nat, token: Script)
    ensures w.consumed <= Disbursed(w, c, now, token).consumed
    ensures var due := c.start + (w.next + 1) * c.period;
            var pays := && due <= now && due <= U64_MAX
                        && Total(c.recipients) <= I128_MAX && Total(c.recipients) <= token.reported
                        && forall i | 0 <= i < |token.onTransfers| && i < |c.recipients| :: !token.onTransfers[i].traps;
            if pays then (w.next, now) in Disbursed(w, c, now, token).consumed[|w.consumed|..]
            else Disbursed(w, c, now, token) == w
  {
    DisbursedAsPays(w, c, now, token);
    var queried := AllDisbursed(w, c, now, token.onBalance);
    AllDisbursedAsPays(w, c, now, token.onBalance);
    var advanced := Windows(w.next + 1, queried.consumed + [(w.next, now)]);
    TransfersAsPay(advanced, c, now, token.onTransfers, |c.recipients|);
    TrapsExactly(advanced, c, now, token.onTransfers, |c.recipients|);
    if Pays(c, w.next, now, token).Some? {
      var after := Disbursed(w, c, now, token).consumed;
      assert after[|queried.consumed|] == (w.next, now);
      assert after[|w.consumed|..][|queried.consumed| - |w.consumed|] == (w.next, now);
    }
  }

  lemma {:induction false} TrapsExactly(w: Windows, c: Config, now: nat, reactions: seq<Reaction>, left: nat)
    ensures AfterTransfers(w, c, now, reactions, left).Some?
       <==> forall i | 0 <= i < |reactions| && i < left :: !reactions[i].traps
    decreases |reactions|
  {
    if left != 0 && reactions != [] && !reactions[0].traps {
      TrapsExactly(AllDisbursed(w, c, now, reactions[0].nested), c, now, reactions[1..], left - 1);
      assert forall i | 1 <= i < |reactions| :: reactions[i] == reactions[1..][i - 1];
    }
  }

  // ---------------------------------------------------------------- the order of the windows

  ghost predicate InOrder(consumed: seq<(nat, nat)>) {
    forall i | 0 <= i < |consumed| :: consumed[i].0 == i
  }

  ghost predicate OnlyWhenDue(consumed: seq<(nat, nat)>, c: Config) {
    forall i | 0 <= i < |consumed| :: consumed[i].1 >= DueAt(c, consumed[i].0)
  }

  ghost predicate SomeTwice(consumed: seq<(nat, nat)>) {
    exists i, j | 0 <= i < j < |consumed| :: consumed[i].0 == consumed[j].0
  }

  /** The windows consumed so far are 0, 1, 2, ..., and the next one follows. */
  ghost predicate Orderly(w: Windows) {
    InOrder(w.consumed) && w.next == |w.consumed|
  }

  lemma TwiceStays(before: seq<(nat, nat)>, after: seq<(nat, nat)>)
    requires SomeTwice(before) && before <= after
    ensures SomeTwice(after)
  {
    var i, j :| 0 <= i < j < |before| && before[i].0 == before[j].0;
    assert after[i].0 == after[j].0;
  }

  /** The call's own window enters the list twice when a nested call consumed it first. */
  lemma ConsumedAgain(w: Windows, queried: Windows, now: nat)
    requires Orderly(w) && w.consumed < queried.consumed
    requires InOrder(queried.consumed) || SomeTwice(queried.consumed)
    ensures SomeTwice(queried.consumed + [(w.next, now)])
  {
    var all := queried.consumed + [(w.next, now)];
    if SomeTwice(queried.consumed) {
      TwiceStays(queried.consumed, all);
    } else {
      assert all[w.next].0 == all[|queried.consumed|].0;
    }
  }

  lemma {:induction false} DisbursedInOrder(w: Windows, c: Config, now: nat, token: Script)
    requires Orderly(w)
    ensures Hazard(c, w.next, now, token) ==> SomeTwice(Disbursed(w, c, now, token).consumed)
    ensures !Hazard(c, w.next, now, token) ==> Orderly(Disbursed(w, c, now, token))
    decreases token, 1
  {
    DisbursedAsPays(w, c, now, token);
    if Pays(c, w.next, now, token).Some? {
      var queried := AllDisbursed(w, c, now, token.onBalance);
      var advanced := Windows(w.next + 1, queried.consumed + [(w.next, now)]);
      AllDisbursedAsPays(w, c, now, token.onBalance);
      TransfersAsPay(advanced, c, now, token.onTransfers, |c.recipients|);
      if OnePays(c, w.next, now, token.onBalance) {
        AllDisbursedInOrder(w, c, now, token.onBalance);
        ConsumedAgain(w, queried, now);
        TwiceStays(advanced.consumed, Disbursed(w, c, now, token).consumed);
      } else {
        TransfersInOrder(advanced, c, now, token.onTransfers, |c.recipients|);
      }
    }
  }

  lemma {:induction false} AllDisbursedInOrder(w: Windows, c: Config, now: nat, calls: seq<Script>)
    requires Orderly(w)
    ensures HazardInCalls(c, w.next, now, calls) ==> SomeTwice(AllDisbursed(w, c, now, calls).consumed)
    ensures !HazardInCalls(c, w.next, now, calls) ==> Orderly(AllDisbursed(w, c, now, calls))
    decreases calls, 0
  {
    if calls != [] {
      var first := Disbursed(w, c, now, calls[0]);
      DisbursedAsPays(w, c, now, calls[0]);
      DisbursedInOrder(w, c, now, calls[0]);
      AllDisbursedAsPays(first, c, now, calls[1..]);
      if Hazard(c, w.next, now, calls[0]) {
        TwiceStays(first.consumed, AllDisbursed(w, c, now, calls).consumed);
      } else {
        AllDisbursedInOrder(first, c, now, calls[1..]);
      }
    }
  }

  lemma {:induction false} TransfersInOrder(w: Windows, c: Config, now: nat, reactions: seq<Reaction>, left: nat)
    requires Orderly(w) && AfterTransfers(w, c, now, reactions, left).Some?
    ensures var after := AfterTransfers(w, c, now, reactions, left).value;
            && (HazardInTransfers(c, w.next, now, reactions, left) ==> SomeTwice(after.consumed))
            && (!HazardInTransfers(c, w.next, now, reactions, left) ==> Orderly(after))
    decreases reactions, 0
  {
    if left != 0 && reactions != [] {
      var first := AllDisbursed(w, c, now, reactions[0].nested);
      AllDisbursedAsPays(w, c, now, reactions[0].nested);
      AllDisbursedInOrder(w, c, now, reactions[0].nested);
      TransfersAsPay(first, c, now, reactions[1..], left - 1);
      if HazardInCalls(c, w.next, now, reactions[0].nested) {
        TwiceStays(first.consumed, AfterTransfers(w, c, now, reactions, left).value.consumed);
      } else {
        TransfersInOrder(first, c, now, reactions[1..], left - 1);
      }
    }
  }

  // ---------------------------------------------------------------- the due times

  lemma {:induction false} DisbursedWhenDue(w: Windows, c: Config, now: nat, token: Script)
    requires OnlyWhenDue(w.consumed, c)
    ensures OnlyWhenDue(Disbursed(w, c, now, token).consumed, c)
    decreases token, 1
  {
    if Payable(c, w.next, now) {
      var queried := AllDisbursed(w, c, now, token.onBalance);
      AllDisbursedWhenDue(w, c, now, token.onBalance);
      TransfersWhenDue(Windows(w.next + 1, queried.consumed + [(w.next, now)]), c, now, token.onTransfers, |c.recipients|);
    }
  }

  lemma {:induction false} AllDisbursedWhenDue(w: Windows, c: Config, now: nat, calls: seq<Script>)
    requires OnlyWhenDue(w.consumed, c)
    ensures OnlyWhenDue(AllDisbursed(w, c, now, calls).consumed, c)
    decreases calls, 0
  {
    if calls != [] {
      DisbursedWhenDue(w, c, now, calls[0]);
      AllDisbursedWhenDue(Disbursed(w, c, now, calls[0]), c, now, calls[1..]);
    }
  }

  lemma {:induction false} TransfersWhenDue(w: Windows, c: Config, now: nat, reactions: seq<Reaction>, left: nat)
    requires OnlyWhenDue(w.consumed, c)
    ensures var r := AfterTransfers(w, c, now, reactions, left); r.Some? ==> OnlyWhenDue(r.value.consumed, c)
    decreases reactions, 0
  {
    if left != 0 && reactions != [] && !reactions[0].traps {
      AllDisbursedWhenDue(w, c, now, reactions[0].nested);
      TransfersWhenDue(AllDisbursed(w, c, now, reactions[0].nested), c, now, reactions[1..], left - 1);
    }
  }

  /** However the token re-enters, no window is consumed before it is due. */
  lemma {:induction false} NeverEarly(c: Config, txs: seq<Transaction>)
    ensures OnlyWhenDue(Replay(c, txs).consumed, c)
  {
    if txs != [] {
      var n := |txs| - 1;
      NeverEarly(c, txs[..n]);
      DisbursedWhenDue(Replay(c, txs[..n]), c, txs[n].now, txs[n].token);
    }
  }

  // ---------------------------------------------------------------- once each, exactly when

  lemma HazardousOneMore(c: Config, txs: seq<Transaction>)
    requires txs != []
    ensures var n := |txs| - 1; Hazardous(c, txs) <==> Hazardous(c, txs[..n]) || HazardAt(c, txs, n)
  {
    var n := |txs| - 1;
    assert forall i | 0 <= i < n :: txs[..n][..i] == txs[..i];
    assert forall i | 0 <= i < n :: HazardAt(c, txs[..n], i) <==> HazardAt(c, txs, i);
  }

  /**
   The windows are consumed 0, 1, 2, ..., each once, exactly when no transaction meets the
   hazard; and when one does, some window is consumed twice.
   */
  lemma {:induction false} WindowsConsumedOnce(c: Config, txs: seq<Transaction>)
    ensures var consumed := Replay(c, txs).consumed;
            && (InOrder(consumed) <==> !Hazardous(c, txs))
            && (SomeTwice(consumed) <==> Hazardous(c, txs))
    ensures !Hazardous(c, txs) ==> Orderly(Replay(c, txs))
  {
    if txs != [] {
      var n := |txs| - 1;
      var before := Replay(c, txs[..n]);
      WindowsConsumedOnce(c, txs[..n]);
      HazardousOneMore(c, txs);
      NextAfterIsNext(c, txs[..n]);
      DisbursedAsPays(before, c, txs[n].now, txs[n].token);
      if Hazardous(c, txs[..n]) {
        TwiceStays(before.consumed, Replay(c, txs).consumed);
      } else {
        DisbursedInOrder(before, c, txs[n].now, txs[n].token);
      }
    }
  }

  /** One call nested in a balance query pays window 0 twice. */
  lemma NestedInBalanceQuery(to: Address)
    ensures var c := Config(to, [Recipient(to, 1)], 1, 0);
            var txs := [Transaction(5, Script([Script([], 1, [])], 1, []))];
            && Replay(c, txs) == Windows(1, [(0, 5), (0, 5)])
            && Hazardous(c, txs)
  {
    var c := Config(to, [Recipient(to, 1)], 1, 0);
    var inner := Script([], 1, []);
    var outer := Script([inner], 1, []);
    var txs := [Transaction(5, outer)];
    var start := Windows(0, []);
    assert c.recipients[..0] == [];
    assert Total(c.recipients) == 1;
    assert AllDisbursed(start, c, 5, []) == start;
    assert Disbursed(start, c, 5, inner) == Windows(1, [(0, 5)]);
    assert AllDisbursed(start, c, 5, outer.onBalance) == Windows(1, [(0, 5)]);
    assert txs[..0] == [];
    assert Replay(c, txs) == Disbursed(start, c, 5, outer);
    WindowsConsumedOnce(c, txs);
    assert Replay(c, txs).consumed[1].0 == 0;
  }

  // ---------------------------------------------------------------- tokens whose balance query does not call back

  predicate QuietBalance(t: Script)
    decreases t
  {
    && t.onBalance == []
    && forall i | 0 <= i < |t.onTransfers| ::
         forall k | 0 <= k < |t.onTransfers[i].nested| :: QuietBalance(t.onTransfers[i].nested[k])
  }

  lemma {:induction false} QuietHasNoHazard(c: Config, next: nat, now: nat, token: Script)
    requires QuietBalance(token)
    ensures !Hazard(c, next, now, token)
    decreases token, 1
  {
    QuietTransfers(c, next + 1, now, token.onTransfers, |c.recipients|);
  }

  lemma {:induction false} QuietCalls(c: Config, next: nat, now: nat, calls: seq<Script>)
    requires forall k | 0 <= k < |calls| :: QuietBalance(calls[k])
    ensures !HazardInCalls(c, next, now, calls)
    decreases calls, 0
  {
    if calls != [] {
      QuietHasNoHazard(c, next, now, calls[0]);
      match Pays(c, next, now, calls[0])
      case Some(n) => QuietCalls(c, n, now, calls[1..]);
      case None => QuietCalls(c, next, now, calls[1..]);
    }
  }

  lemma {:induction false} QuietTransfers(c: Config, next: nat, now: nat, reactions: seq<Reaction>, left: nat)
    requires forall i | 0 <= i < |reactions| ::
               forall k | 0 <= k < |reactions[i].nested| :: QuietBalance(reactions[i].nested[k])
    ensures !HazardInTransfers(c, next, now, reactions, left)
    decreases reactions, 0
  {
    if left != 0 && reactions != [] {
      QuietCalls(c, next, now, reactions[0].nested);
      QuietTransfers(c, PaysAll(c, next, now, reactions[0].nested), now, reactions[1..], left - 1);
    }
  }

  /** A token that calls back only from transfers, as deeply as it likes, never gets a window paid twice. */
  lemma TransferReentrySafe(c: Config, txs: seq<Transaction>)
    requires forall t | t in txs :: QuietBalance(t.token)
    ensures InOrder(Replay(c, txs).consumed) && OnlyWhenDue(Replay(c, txs).consumed, c)
    ensures !SomeTwice(Replay(c, txs).consumed)
  {
    forall i | 0 <= i < |txs| ensures !HazardAt(c, txs, i) {
      QuietHasNoHazard(c, NextAfter(c, txs[..i]), txs[i].now, txs[i].token);
    }
    WindowsConsumedOnce(c, txs);
    NeverEarly(c, txs);
  }
}
