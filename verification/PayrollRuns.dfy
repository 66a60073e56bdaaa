/**
 The payroll from its creation: what is paid, when and to whom, in terms of the one
 configuring action that was accepted, over every run.
 */
module PayrollRuns {
  import opened Results
  import opened Payroll

  /** The contract as created, over any balances. */
  function Created(b: Balances): State {
    State(None, 0, b)
  }

  /** A configuring action with one to 25 lines, all of positive amount, and a positive period. */
  ghost predicate Acceptable(t: Timed) {
    && t.action.ConfigureBy?
    && 1 <= |t.action.recipients| <= 25
    && t.action.period > 0
    && forall j | 0 <= j < |t.action.recipients| :: t.action.recipients[j].amount > 0
  }

  ghost predicate NoneAcceptable(ts: seq<Timed>) {
    forall j | 0 <= j < |ts| :: !Acceptable(ts[j])
  }

  ghost predicate FirstAcceptable(ts: seq<Timed>, i: nat) {
    i < |ts| && Acceptable(ts[i]) && NoneAcceptable(ts[..i])
  }

  /** How many disbursements of the run were accepted. */
  function WindowsPaid(s: State, self: Address, ts: seq<Timed>): nat {
    if ts == [] then 0
    else
      var n := |ts| - 1;
      WindowsPaid(s, self, ts[..n])
      + if ts[n].action.DisburseBy? && AcceptedBy(Run(s, self, ts[..n]), self, ts[n]) then 1 else 0
  }

  // ---------------------------------------------------------------- the stored configuration

  lemma {:induction false} Unconfigured(b: Balances, self: Address, ts: seq<Timed>)
    requires NoneAcceptable(ts)
    ensures Run(Created(b), self, ts).config == None && Run(Created(b), self, ts).nextWindow == 0
    ensures WindowsPaid(Created(b), self, ts) == 0
  {
    if ts != [] {
      var n := |ts| - 1;
      assert forall j | 0 <= j < n :: ts[..n][j] == ts[j];
      Unconfigured(b, self, ts[..n]);
      if ts[n].action.ConfigureBy? {
        ConfiguresExactly(Run(Created(b), self, ts[..n]), ts[n]);
      }
    }
  }

  lemma ConfiguresExactly(s: State, t: Timed)
    requires t.action.ConfigureBy? && s.config.None?
    ensures var (after, r) := Configure(s, t.action.owner, t.action.recipients, t.action.period, t.now);
            if Acceptable(t) then
              && r == Ok(())
              && after == State(Some(Config(t.action.owner, t.action.recipients, t.action.period, t.now)), 0, s.balances)
            else r.Err? && after == s
  {
    var rs := t.action.recipients;
    assert forall r :: r in rs <==> exists j :: 0 <= j < |rs| && rs[j] == r;
    if Acceptable(t) {
      assert forall r | r in rs :: r.amount > 0;
    } else if rs != [] && |rs| <= MAX_RECIPIENTS && t.action.period > 0 {
      var j :| 0 <= j < |rs| && rs[j].amount <= 0;
      assert rs[j] in rs;
    }
  }

  lemma StaysConfigured(s: State, self: Address, t: Timed)
    requires s.config.Some?
    ensures var after := Step(s, self, t);
            && after.config == s.config
            && after.nextWindow == s.nextWindow + if t.action.DisburseBy? && AcceptedBy(s, self, t) then 1 else 0
  {
  }

  lemma WindowsPaidStep(s: State, self: Address, ts: seq<Timed>)
    requires ts != []
    requires var before := Run(s, self, ts[..|ts| - 1]);
             before.config.Some? && before.nextWindow == WindowsPaid(s, self, ts[..|ts| - 1])
    ensures var n := |ts| - 1;
            && Run(s, self, ts).config == Run(s, self, ts[..n]).config
            && Run(s, self, ts).nextWindow == WindowsPaid(s, self, ts)
  {
    StaysConfigured(Run(s, self, ts[..|ts| - 1]), self, ts[|ts| - 1]);
  }

  lemma {:induction false} StoresTheAction(b: Balances, self: Address, ts: seq<Timed>, i: nat)
    requires FirstAcceptable(ts, i)
    ensures var s, a := Run(Created(b), self, ts), ts[i].action;
            && s.config == Some(Config(a.owner, a.recipients, a.period, ts[i].now))
            && s.nextWindow == WindowsPaid(Created(b), self, ts)
  {
    var n := |ts| - 1;
    if i == n {
      Unconfigured(b, self, ts[..n]);
      ConfiguresExactly(Run(Created(b), self, ts[..n]), ts[n]);
    } else {
      assert ts[..n][..i] == ts[..i] && ts[..n][i] == ts[i];
      StoresTheAction(b, self, ts[..n], i);
      WindowsPaidStep(Created(b), self, ts);
    }
  }

  // ---------------------------------------------------------------- which calls are accepted

  /** A configuring action is accepted exactly when it is acceptable and none before it was. */
  lemma ConfigureAcceptedExactly(b: Balances, self: Address, ts: seq<Timed>, t: Timed)
    requires t.action.ConfigureBy?
    ensures var r := Configure(Run(Created(b), self, ts), t.action.owner, t.action.recipients, t.action.period, t.now).1;
            && (r.Ok? <==> NoneAcceptable(ts) && Acceptable(t))
            && (r == Err(AlreadyConfigured) <==> !NoneAcceptable(ts))
  {
    if NoneAcceptable(ts) {
      Unconfigured(b, self, ts);
      ConfiguresExactly(Run(Created(b), self, ts), t);
    } else {
      var i := FirstOf(ts);
      StoresTheAction(b, self, ts, i);
    }
  }

  lemma {:induction false} FirstOf(ts: seq<Timed>) returns (i: nat)
    requires !NoneAcceptable(ts)
    ensures FirstAcceptable(ts, i)
  {
    var n := |ts| - 1;
    if NoneAcceptable(ts[..n]) {
      assert forall j | 0 <= j < n :: !Acceptable(ts[..n][j]);
      i := n;
    } else {
      i := FirstOf(ts[..n]);
      assert ts[..n][..i] == ts[..i] && ts[..n][i] == ts[i];
    }
  }

  /** Until then nothing is paid in, paid out or withdrawn: every such call fails and moves nothing. */
  lemma NothingBeforeConfiguring(b: Balances, self: Address, ts: seq<Timed>, t: Timed)
    requires NoneAcceptable(ts) && (t.action.FundBy? || t.action.DisburseBy? || t.action.WithdrawBy?)
    ensures !AcceptedBy(Run(Created(b), self, ts), self, t)
    ensures Run(Created(b), self, ts + [t]) == Run(Created(b), self, ts)
  {
    Unconfigured(b, self, ts);
    assert (ts + [t])[..|ts|] == ts;
  }

  /** The total is the sum of the lines, and what an account is owed the sum of its own. */
  lemma {:induction false} TotalIsTheSum(x: seq<Recipient>, y: seq<Recipient>, r: Recipient, a: Address)
    ensures Total([]) == 0 && Total([r]) == r.amount && Total(x + y) == Total(x) + Total(y)
    ensures Owed([], a) == 0 && Owed(x + y, a) == Owed(x, a) + Owed(y, a)
    ensures Owed([r], a) == if r.to == a then r.amount else 0
  {
    assert [r][..0] == [];
    if y == [] {
      assert x + y == x;
    } else {
      var n := |y| - 1;
      assert (x + y)[..|x| + n] == x + y[..n];
      TotalIsTheSum(x, y[..n], r, a);
    }
  }

  /**
   Once configured, a disbursement pays window k exactly when k windows were paid before,
   k + 1 periods have passed since the configuring action, and the contract holds the sum
   of that action's lines, within the widths of the numbers; then each account gets the sum
   of its lines, the contract gives their total, and otherwise nothing changes.
   */
  lemma DisbursedExactly(b: Balances, self: Address, ts: seq<Timed>, i: nat, now: nat, k: nat, a: Address)
    requires FirstAcceptable(ts, i)
    ensures var (before, rs) := (Run(Created(b), self, ts), ts[i].action.recipients);
            var (after, r) := Disburse(before, self, now);
            var due := ts[i].now + (k + 1) * ts[i].action.period;
            && (r == Ok(k) <==>
                  && k == WindowsPaid(Created(b), self, ts)
                  && due <= now && due <= U64_MAX
                  && Balance(before.balances, self) >= Total(rs) && Total(rs) <= I128_MAX)
            && (r == Ok(k) ==>
                  && Balance(after.balances, a)
                     == Balance(before.balances, a) + Owed(rs, a) - (if a == self then Total(rs) else 0)
                  && after.nextWindow == before.nextWindow + 1)
            && (r.Err? ==> after == before)
  {
    StoresTheAction(b, self, ts, i);
    var before := Run(Created(b), self, ts);
    assert DueAt(before.config.value, k) == ts[i].now + (k + 1) * ts[i].action.period;
    PayAllBalances(before.balances, self, ts[i].action.recipients, a);
  }

  /** A withdrawal is accepted exactly when positive and covered, and goes to the configuring action's owner. */
  lemma WithdrawnExactly(b: Balances, self: Address, ts: seq<Timed>, i: nat, amount: int, a: Address)
    requires FirstAcceptable(ts, i)
    ensures var before := Run(Created(b), self, ts);
            var (after, r) := Withdraw(before, self, amount);
            && (r.Ok? <==> 0 < amount <= Balance(before.balances, self))
            && (r.Ok? ==>
                  Balance(after.balances, a) == Balance(before.balances, a)
                  + (if a == ts[i].action.owner then amount else 0) - (if a == self then amount else 0))
            && (r.Err? ==> after == before)
  {
    StoresTheAction(b, self, ts, i);
    MovedBalance(Run(Created(b), self, ts).balances, self, ts[i].action.owner, amount, a);
  }

  /** A deposit is accepted exactly when positive and covered by its sender, and goes to the contract. */
  lemma FundedExactly(b: Balances, self: Address, ts: seq<Timed>, i: nat, from: Address, amount: int, a: Address)
    requires FirstAcceptable(ts, i)
    ensures var before := Run(Created(b), self, ts);
            var (after, r) := Fund(before, self, from, amount);
            && (r.Ok? <==> 0 < amount <= Balance(before.balances, from))
            && (r.Ok? ==>
                  Balance(after.balances, a) == Balance(before.balances, a)
                  + (if a == self then amount else 0) - (if a == from then amount else 0))
            && (r.Err? ==> after == before)
  {
    StoresTheAction(b, self, ts, i);
    MovedBalance(Run(Created(b), self, ts).balances, from, self, amount, a);
  }

  // ---------------------------------------------------------------- whole runs

  /** The windows paid are 0, 1, 2, ..., window k not before k + 1 periods after `start`. */
  ghost predicate PaidInOrder(paid: seq<(nat, nat)>, start: nat, period: nat) {
    forall k | 0 <= k < |paid| :: paid[k].0 == k && paid[k].1 >= start + (k + 1) * period
  }

  lemma PaidOneMore(paid: seq<(nat, nat)>, now: nat, start: nat, period: nat)
    requires PaidInOrder(paid, start, period) && now >= start + (|paid| + 1) * period
    ensures PaidInOrder(paid + [(|paid|, now)], start, period)
  {
  }

  /** An accepted disbursement pays the next window, when it is due. */
  lemma DisburseTakesNext(s: State, self: Address, now: nat, c: Config)
    requires s.config == Some(c)
    ensures var r := Disburse(s, self, now).1;
            r.Ok? ==> r.value == s.nextWindow && now >= c.start + (s.nextWindow + 1) * c.period
  {
    assert DueAt(c, s.nextWindow) == c.start + (s.nextWindow + 1) * c.period;
  }

  lemma PaidStep(s: State, self: Address, ts: seq<Timed>, c: Config)
    requires ts != []
    requires var (n, paid) := (|ts| - 1, Paid(s, self, ts[..|ts| - 1]));
             var before := Run(s, self, ts[..n]);
             && before.config == Some(c) && |paid| == WindowsPaid(s, self, ts[..n]) == before.nextWindow
             && PaidInOrder(paid, c.start, c.period)
    ensures |Paid(s, self, ts)| == WindowsPaid(s, self, ts) && PaidInOrder(Paid(s, self, ts), c.start, c.period)
  {
    var n := |ts| - 1;
    var (before, paid) := (Run(s, self, ts[..n]), Paid(s, self, ts[..n]));
    DisburseTakesNext(before, self, ts[n].now, c);
    if ts[n].action.DisburseBy? && AcceptedBy(before, self, ts[n]) {
      PaidOneMore(paid, ts[n].now, c.start, c.period);
      assert Paid(s, self, ts) == paid + [(|paid|, ts[n].now)];
    } else {
      assert Paid(s, self, ts) == paid;
    }
  }

  /** On every run nothing is paid by the configuring action, and what is paid after it is in order and due. */
  lemma {:induction false} PaidFromTheStart(b: Balances, self: Address, ts: seq<Timed>, i: nat)
    requires FirstAcceptable(ts, i)
    ensures Paid(Created(b), self, ts[..i + 1]) == []
    ensures |Paid(Created(b), self, ts)| == WindowsPaid(Created(b), self, ts)
    ensures PaidInOrder(Paid(Created(b), self, ts), ts[i].now, ts[i].action.period)
  {
    var n := |ts| - 1;
    if i == n {
      assert ts[..i + 1] == ts;
      PaidNothing(b, self, ts[..n]);
      Unconfigured(b, self, ts[..n]);
    } else {
      assert ts[..n][..i] == ts[..i] && ts[..n][i] == ts[i] && ts[..n][..i + 1] == ts[..i + 1];
      PaidFromTheStart(b, self, ts[..n], i);
      StoresTheAction(b, self, ts[..n], i);
      PaidStep(Created(b), self, ts, Run(Created(b), self, ts[..n]).config.value);
    }
  }

  lemma {:induction false} PaidNothing(b: Balances, self: Address, ts: seq<Timed>)
    requires NoneAcceptable(ts)
    ensures Paid(Created(b), self, ts) == []
  {
    if ts != [] {
      var n := |ts| - 1;
      assert forall j | 0 <= j < n :: ts[..n][j] == ts[j];
      PaidNothing(b, self, ts[..n]);
      Unconfigured(b, self, ts[..n]);
    }
  }

  /** What one action other than a disbursement brings an account, withdrawals going to `owner`. */
  function Brought(s: State, self: Address, t: Timed, owner: Address, a: Address): int {
    if !AcceptedBy(s, self, t) then 0
    else
      match t.action
      case FundBy(from, amount) => Gain(from, self, amount, a)
      case TransferBy(from, to, amount) => Gain(from, to, amount, a)
      case WithdrawBy(amount) => Gain(self, owner, amount, a)
      case _ => 0
  }

  /** What the accepted deposits, transfers and withdrawals of a run bring an account, withdrawals going to `owner`. */
  function BroughtTo(s: State, self: Address, ts: seq<Timed>, owner: Address, a: Address): int {
    if ts == [] then 0
    else
      var n := |ts| - 1;
      BroughtTo(s, self, ts[..n], owner, a) + Brought(Run(s, self, ts[..n]), self, ts[n], owner, a)
  }

  lemma AccountStep(s: State, self: Address, t: Timed, owner: Address, a: Address)
    requires s.config.Some? && s.config.value.owner == owner
    ensures var rs := s.config.value.recipients;
            Balance(Step(s, self, t).balances, a) == Balance(s.balances, a) + Brought(s, self, t, owner, a)
              + if t.action.DisburseBy? && AcceptedBy(s, self, t)
                then Owed(rs, a) - (if a == self then Total(rs) else 0) else 0
  {
    if t.action.DisburseBy? {
      StepPays(s, self, t, a);
    } else {
      StepFlows(s, self, t, a);
    }
  }

  /**
   An account holds what it started with, what deposits, transfers and withdrawals brought
   it, and for each window paid the sum of its lines, less, for the contract, that of all.
   */
  ghost predicate Accounted(s: State, self: Address, ts: seq<Timed>, owner: Address, rs: seq<Recipient>, a: Address) {
    Balance(Run(s, self, ts).balances, a)
    == Balance(s.balances, a) + BroughtTo(s, self, ts, owner, a)
       + Times(WindowsPaid(s, self, ts), Owed(rs, a) - (if a == self then Total(rs) else 0))
  }

  lemma AccountedStep(s: State, self: Address, ts: seq<Timed>, owner: Address, rs: seq<Recipient>, a: Address)
    requires ts != [] && Accounted(s, self, ts[..|ts| - 1], owner, rs, a)
    requires var c := Run(s, self, ts[..|ts| - 1]).config; c.Some? && c.value.owner == owner && c.value.recipients == rs
    ensures Accounted(s, self, ts, owner, rs, a)
  {
    AccountStep(Run(s, self, ts[..|ts| - 1]), self, ts[|ts| - 1], owner, a);
  }

  /** From creation on, each account is accounted for by the configuring action's owner and lines. */
  lemma {:induction false} AccountsFromTheStart(b: Balances, self: Address, ts: seq<Timed>, i: nat, a: Address)
    requires FirstAcceptable(ts, i)
    ensures Accounted(Created(b), self, ts, ts[i].action.owner, ts[i].action.recipients, a)
  {
    var n := |ts| - 1;
    var c := ts[i].action;
    if i == n {
      BeforeConfiguring(b, self, ts[..n], c.owner, a);
      Unconfigured(b, self, ts[..n]);
    } else {
      assert ts[..n][..i] == ts[..i] && ts[..n][i] == ts[i];
      AccountsFromTheStart(b, self, ts[..n], i, a);
      StoresTheAction(b, self, ts[..n], i);
      AccountedStep(Created(b), self, ts, c.owner, c.recipients, a);
    }
  }

  lemma {:induction false} BeforeConfiguring(b: Balances, self: Address, ts: seq<Timed>, owner: Address, a: Address)
    requires NoneAcceptable(ts)
    ensures Balance(Run(Created(b), self, ts).balances, a)
         == Balance(b, a) + BroughtTo(Created(b), self, ts, owner, a)
  {
    if ts != [] {
      var n := |ts| - 1;
      assert forall j | 0 <= j < n :: ts[..n][j] == ts[j];
      BeforeConfiguring(b, self, ts[..n], owner, a);
      Unconfigured(b, self, ts[..n]);
      if ts[n].action.TransferBy? {
        MovedBalance(Run(Created(b), self, ts[..n]).balances, ts[n].action.from, ts[n].action.to, ts[n].action.amount, a);
      }
    }
  }
}
