/** The payroll contract with a token that behaves: windows in order, all-or-nothing, nothing lost. */
module Payroll {
  import opened Results

  type Address = string

  const MAX_RECIPIENTS: nat := 25
  const U64_MAX: int := 0xFFFF_FFFF_FFFF_FFFF
  const I128_MAX: int := 0x7FFF_FFFF_FFFF_FFFF_FFFF_FFFF_FFFF_FFFF

  datatype Recipient = Recipient(to: Address, amount: int)

  datatype Config = Config(owner: Address, recipients: seq<Recipient>, period: nat, start: nat)

  /** `Trap` is the host aborting the call: an arithmetic overflow or a failed token transfer. */
  datatype Error =
    | NotConfigured | AlreadyConfigured | NotDue | InsufficientBalance
    | InvalidRecipients | InvalidPeriod | InvalidAmount | Trap

  type Balances = map<Address, int>

  datatype State = State(config: Option<Config>, nextWindow: nat, balances: Balances)

  // ---------------------------------------------------------------- the token

  function Balance(b: Balances, a: Address): int {
    if a in b then b[a] else 0
  }

  function Moved(b: Balances, from: Address, to: Address, amount: int): Balances {
    var taken := b[from := Balance(b, from) - amount];
    taken[to := Balance(taken, to) + amount]
  }

  class Token {
    var balances: Balances

    constructor ()
      ensures balances == map[]
    {
      balances := map[];
    }

    method Transfer(from: Address, to: Address, amount: int) returns (ok: bool)
      modifies this
      ensures ok == (amount >= 0 && Balance(old(balances), from) >= amount)
      ensures balances == if ok then Moved(old(balances), from, to, amount) else old(balances)
    {
      if amount < 0 || Balance(balances, from) < amount {
        return false;
      }
      balances := balances[from := Balance(balances, from) - amount];
      balances := balances[to := Balance(balances, to) + amount];
      return true;
    }
  }

  // ---------------------------------------------------------------- the contract

  function Total(rs: seq<Recipient>): int {
    if rs == [] then 0 else Total(rs[..|rs| - 1]) + rs[|rs| - 1].amount
  }

  function PayAll(b: Balances, self: Address, rs: seq<Recipient>): Balances {
    if rs == [] then b
    else
      var last := rs[|rs| - 1];
      Moved(PayAll(b, self, rs[..|rs| - 1]), self, last.to, last.amount)
  }

  /** Window k is due at start + (k + 1) * period. */
  function DueAt(c: Config, window: nat): nat {
    c.start + (window + 1) * c.period
  }

  function Configure(s: State, owner: Address, rs: seq<Recipient>, period: nat, now: nat): (State, Result<(), Error>) {
    if s.config.Some? then (s, Err(AlreadyConfigured))
    else if rs == [] || |rs| > MAX_RECIPIENTS then (s, Err(InvalidRecipients))
    else if period == 0 then (s, Err(InvalidPeriod))
    else if exists r | r in rs :: r.amount <= 0 then (s, Err(InvalidAmount))
    else (s.(config := Some(Config(owner, rs, period, now)), nextWindow := 0), Ok(()))
  }

  function Fund(s: State, self: Address, from: Address, amount: int): (State, Result<(), Error>) {
    if amount <= 0 then (s, Err(InvalidAmount))
    else if s.config.None? then (s, Err(NotConfigured))
    else if Balance(s.balances, from) < amount then (s, Err(Trap))
    else (s.(balances := Moved(s.balances, from, self, amount)), Ok(()))
  }

  function Disburse(s: State, self: Address, now: nat): (State, Result<nat, Error>) {
    match s.config
    case None => (s, Err(NotConfigured))
    case Some(c) =>
      if DueAt(c, s.nextWindow) > U64_MAX then (s, Err(Trap))
      else if now < DueAt(c, s.nextWindow) then (s, Err(NotDue))
      else if Total(c.recipients) > I128_MAX then (s, Err(Trap))
      else if Balance(s.balances, self) < Total(c.recipients) then (s, Err(InsufficientBalance))
      else (s.(nextWindow := s.nextWindow + 1, balances := PayAll(s.balances, self, c.recipients)), Ok(s.nextWindow))
  }

  function Withdraw(s: State, self: Address, amount: int): (State, Result<(), Error>) {
    match s.config
    case None => (s, Err(NotConfigured))
    case Some(c) =>
      if amount <= 0 then (s, Err(InvalidAmount))
      else if Balance(s.balances, self) < amount then (s, Err(InsufficientBalance))
      else (s.(balances := Moved(s.balances, self, c.owner, amount)), Ok(()))
  }

  /** Every configuration the contract stores has positive amounts and a positive period. */
  ghost predicate ValidConfig(s: State) {
    s.config.Some? ==>
      && s.config.value.period > 0
      && 0 < |s.config.value.recipients| <= MAX_RECIPIENTS
      && forall r | r in s.config.value.recipients :: r.amount > 0
  }

  class PayrollContract {
    const self: Address
    const token: Token
    var config: Option<Config>
    var nextWindow: nat

    ghost function S(): State
      reads this, token
    {
      State(config, nextWindow, token.balances)
    }

    constructor (self: Address, token: Token)
      ensures this.self == self && this.token == token
      ensures S() == State(None, 0, token.balances)
    {
      this.self, this.token := self, token;
      config, nextWindow := None, 0;
    }

    method ConfigureOnce(owner: Address, rs: seq<Recipient>, period: nat, now: nat) returns (r: Result<(), Error>)
      modifies this
      ensures (S(), r) == Configure(old(S()), owner, rs, period, now)
    {
      if config.Some? {
        return Err(AlreadyConfigured);
      }
      if rs == [] || |rs| > MAX_RECIPIENTS {
        return Err(InvalidRecipients);
      }
      if period == 0 {
        return Err(InvalidPeriod);
      }
      for i := 0 to |rs|
        invariant forall k | 0 <= k < i :: rs[k].amount > 0
        invariant S() == old(S())
      {
        if rs[i].amount <= 0 {
          assert rs[i] in rs;
          return Err(InvalidAmount);
        }
      }
      config, nextWindow := Some(Config(owner, rs, period, now)), 0;
      return Ok(());
    }

    method FundFrom(from: Address, amount: int) returns (r: Result<(), Error>)
      modifies token
      ensures (S(), r) == Fund(old(S()), self, from, amount)
    {
      if amount <= 0 {
        return Err(InvalidAmount);
      }
      if config.None? {
        return Err(NotConfigured);
      }
      var ok := token.Transfer(from, self, amount);
      return if ok then Ok(()) else Err(Trap);
    }

    method DisburseNext(now: nat) returns (r: Result<nat, Error>)
      requires ValidConfig(S())
      modifies this, token
      ensures (S(), r) == Disburse(old(S()), self, now)
    {
      if config.None? {
        return Err(NotConfigured);
      }
      var c, window := config.value, nextWindow;
      var windowStart := c.start + window * c.period;
      var dueAt := windowStart + c.period;
      assert dueAt == DueAt(c, window);
      if dueAt > U64_MAX {
        return Err(Trap);
      }
      if now < dueAt {
        return Err(NotDue);
      }
      var total := 0;
      for i := 0 to |c.recipients|
        invariant total == Total(c.recipients[..i])
      {
        assert c.recipients[..i + 1][..i] == c.recipients[..i];
        total := total + c.recipients[i].amount;
      }
      assert c.recipients[..|c.recipients|] == c.recipients;
      if total > I128_MAX {
        return Err(Trap);
      }
      if Balance(token.balances, self) < total {
        return Err(InsufficientBalance);
      }
      nextWindow := window + 1;
      for i := 0 to |c.recipients|
        invariant token.balances == PayAll(old(token.balances), self, c.recipients[..i])
        invariant nextWindow == window + 1 && config == old(config)
      {
        TransferCovered(old(token.balances), self, c.recipients, i);
        assert c.recipients[..i + 1][..i] == c.recipients[..i];
        var ok := token.Transfer(self, c.recipients[i].to, c.recipients[i].amount);
        assert ok;  // the balance check covers every transfer of the loop
      }
      return Ok(window);
    }

    method WithdrawToOwner(amount: int) returns (r: Result<(), Error>)
      modifies token
      ensures (S(), r) == Withdraw(old(S()), self, amount)
    {
      if config.None? {
        return Err(NotConfigured);
      }
      if amount <= 0 {
        return Err(InvalidAmount);
      }
      if Balance(token.balances, self) < amount {
        return Err(InsufficientBalance);
      }
      var ok := token.Transfer(self, config.value.owner, amount);
      assert ok;
      return Ok(());
    }
  }

  // ---------------------------------------------------------------- what paying does

  /** What an address is owed per window: the sum of its lines. */
  function Owed(rs: seq<Recipient>, a: Address): int {
    if rs == [] then 0
    else Owed(rs[..|rs| - 1], a) + if rs[|rs| - 1].to == a then rs[|rs| - 1].amount else 0
  }

  /** Paying moves exactly each line's amount, and takes the total from the contract. */
  lemma {:induction false} PayAllBalances(b: Balances, self: Address, rs: seq<Recipient>, a: Address)
    ensures Balance(PayAll(b, self, rs), a) == Balance(b, a) + Owed(rs, a) - (if a == self then Total(rs) else 0)
  {
    if rs != [] {
      PayAllBalances(b, self, rs[..|rs| - 1], a);
      PayAllBalances(b, self, rs[..|rs| - 1], self);
    }
  }

  lemma {:induction false} TotalsGrow(rs: seq<Recipient>, i: nat)
    requires i <= |rs| && forall r | r in rs :: r.amount > 0
    ensures Total(rs[..i]) <= Total(rs)
  {
    if i == |rs| {
      assert rs[..i] == rs;
    } else {
      TotalsGrow(rs[..|rs| - 1], i);
      assert rs[..|rs| - 1][..i] == rs[..i];
      assert rs[|rs| - 1] in rs;
    }
  }

  lemma {:induction false} OwedNotNegative(rs: seq<Recipient>, a: Address)
    requires forall r | r in rs :: r.amount > 0
    ensures 0 <= Owed(rs, a) <= Total(rs)
  {
    if rs != [] {
      OwedNotNegative(rs[..|rs| - 1], a);
      assert rs[|rs| - 1] in rs;
    }
  }

  /** After paying i lines, the contract still covers the next one. */
  lemma TransferCovered(b: Balances, self: Address, rs: seq<Recipient>, i: nat)
    requires i < |rs| && (forall r | r in rs :: r.amount > 0) && Balance(b, self) >= Total(rs)
    ensures Balance(PayAll(b, self, rs[..i]), self) >= rs[i].amount > 0
  {
    PayAllBalances(b, self, rs[..i], self);
    OwedNotNegative(rs[..i], self);
    TotalsGrow(rs, i + 1);
    assert rs[..i + 1][..i] == rs[..i];
    assert rs[i] in rs;
  }

  // ---------------------------------------------------------------- runs

  datatype Action =
    | ConfigureBy(owner: Address, recipients: seq<Recipient>, period: nat)
    | FundBy(from: Address, amount: int)
    | DisburseBy(caller: Address)
    | WithdrawBy(amount: int)
    | TransferBy(from: Address, to: Address, amount: int)  // any transfer outside the contract's calls

  datatype Timed = Timed(action: Action, now: nat)

  function Step(s: State, self: Address, t: Timed): State {
    match t.action
    case ConfigureBy(o, rs, p) => Configure(s, o, rs, p, t.now).0
    case FundBy(from, amount) => Fund(s, self, from, amount).0
    case DisburseBy(_) => Disburse(s, self, t.now).0
    case WithdrawBy(amount) => Withdraw(s, self, amount).0
    case TransferBy(from, to, amount) =>
      if amount < 0 || Balance(s.balances, from) < amount then s
      else s.(balances := Moved(s.balances, from, to, amount))
  }

  function Run(s: State, self: Address, ts: seq<Timed>): State {
    if ts == [] then s else Step(Run(s, self, ts[..|ts| - 1]), self, ts[|ts| - 1])
  }

  /** The action is accepted: it does not fail. */
  predicate AcceptedBy(s: State, self: Address, t: Timed) {
    match t.action
    case ConfigureBy(o, rs, p) => Configure(s, o, rs, p, t.now).1.Ok?
    case FundBy(from, amount) => Fund(s, self, from, amount).1.Ok?
    case DisburseBy(_) => Disburse(s, self, t.now).1.Ok?
    case WithdrawBy(amount) => Withdraw(s, self, amount).1.Ok?
    case TransferBy(from, _, amount) => amount >= 0 && Balance(s.balances, from) >= amount
  }

  /** What an account gets from one transfer of `amount`. */
  function Gain(from: Address, to: Address, amount: int, a: Address): int {
    (if a == to then amount else 0) - (if a == from then amount else 0)
  }

  /** What the amount of an accepted action other than a disbursement brings an account. */
  function Flow(s: State, self: Address, t: Timed, a: Address): int {
    if !AcceptedBy(s, self, t) then 0
    else
      match t.action
      case FundBy(from, amount) => Gain(from, self, amount, a)
      case WithdrawBy(amount) => if s.config.Some? then Gain(self, s.config.value.owner, amount, a) else 0
      case TransferBy(from, to, amount) => Gain(from, to, amount, a)
      case _ => 0
  }

  function Flows(s: State, self: Address, ts: seq<Timed>, a: Address): int {
    if ts == [] then 0
    else
      var n := |ts| - 1;
      Flows(s, self, ts[..n], a) + Flow(Run(s, self, ts[..n]), self, ts[n], a)
  }

  /** n times x. */
  function Times(n: nat, x: int): int {
    if n == 0 then 0 else Times(n - 1, x) + x
  }

  lemma {:induction false} TimesIsProduct(n: nat, x: int)
    ensures Times(n, x) == n * x
  {
    if n != 0 {
      TimesIsProduct(n - 1, x);
    }
  }

  lemma {:induction false} ConfigNeverChanges(s: State, self: Address, ts: seq<Timed>)
    requires ValidConfig(s)
    ensures ValidConfig(Run(s, self, ts))
    ensures s.config.Some? ==> Run(s, self, ts).config == s.config && Run(s, self, ts).nextWindow >= s.nextWindow
  {
    if ts != [] {
      ConfigNeverChanges(s, self, ts[..|ts| - 1]);
    }
  }

  /** What one paid window does to an account. */
  function PerWindow(rs: seq<Recipient>, self: Address, a: Address): int {
    Owed(rs, a) - (if a == self then Total(rs) else 0)
  }

  lemma MovedBalance(b: Balances, from: Address, to: Address, amount: int, a: Address)
    ensures Balance(Moved(b, from, to, amount), a) == Balance(b, a) + Gain(from, to, amount, a)
  {
  }

  lemma StepFlows(s: State, self: Address, t: Timed, a: Address)
    requires s.config.Some? && !t.action.DisburseBy?
    ensures Step(s, self, t).nextWindow == s.nextWindow
    ensures Balance(Step(s, self, t).balances, a) == Balance(s.balances, a) + Flow(s, self, t, a)
  {
    match t.action
    case FundBy(from, amount) => MovedBalance(s.balances, from, self, amount, a);
    case WithdrawBy(amount) => MovedBalance(s.balances, self, s.config.value.owner, amount, a);
    case TransferBy(from, to, amount) => MovedBalance(s.balances, from, to, amount, a);
    case ConfigureBy(_, _, _) =>
  }

  lemma StepPays(s: State, self: Address, t: Timed, a: Address)
    requires s.config.Some? && t.action.DisburseBy?
    ensures var after := Step(s, self, t);
            if AcceptedBy(s, self, t) then
              && after.nextWindow == s.nextWindow + 1
              && Balance(after.balances, a) == Balance(s.balances, a) + PerWindow(s.config.value.recipients, self, a)
            else after == s
  {
    PayAllBalances(s.balances, self, s.config.value.recipients, a);
  }

  /**
   On every run of a configured payroll each account holds what it started with, plus the
   amounts of the accepted deposits, withdrawals and transfers it took part in, plus what
   it is owed for each window paid, less, for the contract, the total of each window paid.
   */
  lemma {:induction false} EveryTokenAccountedFor(s: State, self: Address, ts: seq<Timed>, a: Address)
    requires ValidConfig(s) && s.config.Some?
    ensures Run(s, self, ts).nextWindow >= s.nextWindow
    ensures Balance(Run(s, self, ts).balances, a)
         == Balance(s.balances, a) + Flows(s, self, ts, a)
            + Times(Run(s, self, ts).nextWindow - s.nextWindow, PerWindow(s.config.value.recipients, self, a))
  {
    if ts != [] {
      var n := |ts| - 1;
      var before := Run(s, self, ts[..n]);
      EveryTokenAccountedFor(s, self, ts[..n], a);
      ConfigNeverChanges(s, self, ts[..n]);
      if ts[n].action.DisburseBy? {
        StepPays(before, self, ts[n], a);
      } else {
        StepFlows(before, self, ts[n], a);
      }
    }
  }

  // ---------------------------------------------------------------- the contract's own account

  /** Accepted deposits, withdrawals, and transfers to the contract that did not go through it. */
  datatype Ledger = Ledger(deposits: int, withdrawals: int, received: int)

  function Booked(s: State, self: Address, ts: seq<Timed>): Ledger {
    if ts == [] then Ledger(0, 0, 0)
    else
      var n := |ts| - 1;
      var (before, t) := (Booked(s, self, ts[..n]), ts[n]);
      if !AcceptedBy(Run(s, self, ts[..n]), self, t) then before
      else
        match t.action
        case FundBy(_, amount) => before.(deposits := before.deposits + amount)
        case WithdrawBy(amount) => before.(withdrawals := before.withdrawals + amount)
        case TransferBy(_, to, amount) => if to == self then before.(received := before.received + amount) else before
        case _ => before
  }

  /** Only the contract's own calls move its tokens, as only it can authorize that. */
  predicate OthersAct(self: Address, ts: seq<Timed>) {
    forall t | t in ts ::
      && (t.action.FundBy? ==> t.action.from != self)
      && (t.action.TransferBy? ==> t.action.from != self)
  }

  lemma {:induction false} FlowsAreBooked(s: State, self: Address, ts: seq<Timed>)
    requires ValidConfig(s) && s.config.Some? && s.config.value.owner != self && OthersAct(self, ts)
    ensures var l := Booked(s, self, ts);
            Flows(s, self, ts, self) == l.deposits - l.withdrawals + l.received
  {
    if ts != [] {
      var n := |ts| - 1;
      assert ts[n] in ts && forall t | t in ts[..n] :: t in ts;
      FlowsAreBooked(s, self, ts[..n]);
      ConfigNeverChanges(s, self, ts[..n]);
    }
  }

  /**
   With no recipient, and no owner, equal to the contract, its balance is its start plus
   deposits and transfers received, less withdrawals, less the full total for each window paid.
   */
  lemma ContractBalance(s: State, self: Address, ts: seq<Timed>)
    requires ValidConfig(s) && s.config.Some? && s.config.value.owner != self && OthersAct(self, ts)
    requires forall r | r in s.config.value.recipients :: r.to != self
    ensures Run(s, self, ts).nextWindow >= s.nextWindow
    ensures var l, end := Booked(s, self, ts), Run(s, self, ts);
            Balance(end.balances, self)
            == Balance(s.balances, self) + l.deposits + l.received - l.withdrawals
               - Times(end.nextWindow - s.nextWindow, Total(s.config.value.recipients))
  {
    FlowsAreBooked(s, self, ts);
    WindowTakesTotal(s, self, ts);
  }

  lemma WindowTakesTotal(s: State, self: Address, ts: seq<Timed>)
    requires ValidConfig(s) && s.config.Some?
    requires forall r | r in s.config.value.recipients :: r.to != self
    ensures Run(s, self, ts).nextWindow >= s.nextWindow
    ensures Balance(Run(s, self, ts).balances, self)
         == Balance(s.balances, self) + Flows(s, self, ts, self)
            - Times(Run(s, self, ts).nextWindow - s.nextWindow, Total(s.config.value.recipients))
  {
    var rs := s.config.value.recipients;
    EveryTokenAccountedFor(s, self, ts, self);
    PerWindowOfContract(rs, self);
    Negated(Run(s, self, ts).nextWindow - s.nextWindow, PerWindow(rs, self, self), Total(rs));
  }

  lemma PerWindowOfContract(rs: seq<Recipient>, self: Address)
    requires (forall r | r in rs :: r.amount > 0) && (forall r | r in rs :: r.to != self)
    ensures PerWindow(rs, self, self) == -Total(rs)
  {
    OwedPositive(rs, self);
  }

  lemma {:induction false} Negated(n: nat, x: int, y: int)
    requires x == -y
    ensures Times(n, x) == -Times(n, y)
  {
    if n != 0 {
      Negated(n - 1, x, y);
    }
  }

  /** Each recipient's gain: what it is owed, once per window paid, beside its own transfers. */
  lemma RecipientPaidPerWindow(s: State, self: Address, ts: seq<Timed>, a: Address)
    requires ValidConfig(s) && s.config.Some? && a != self
    ensures Run(s, self, ts).nextWindow >= s.nextWindow
    ensures Balance(Run(s, self, ts).balances, a)
         == Balance(s.balances, a) + Flows(s, self, ts, a)
            + Times(Run(s, self, ts).nextWindow - s.nextWindow, Owed(s.config.value.recipients, a))
  {
    EveryTokenAccountedFor(s, self, ts, a);
  }

  // ---------------------------------------------------------------- the supply

  ghost function SumOf(b: Balances, accounts: set<Address>): int {
    if accounts == {} then 0
    else
      var a :| a in accounts;
      Balance(b, a) + SumOf(b, accounts - {a})
  }

  /** The sum of all balances. */
  ghost function Supply(b: Balances): int {
    SumOf(b, b.Keys)
  }

  lemma {:induction false} SumWithout(b: Balances, accounts: set<Address>, x: Address)
    requires x in accounts
    ensures SumOf(b, accounts) == Balance(b, x) + SumOf(b, accounts - {x})
    decreases |accounts|
  {
    var a :| a in accounts && SumOf(b, accounts) == Balance(b, a) + SumOf(b, accounts - {a});
    if a != x {
      SumWithout(b, accounts - {a}, x);
      SumWithout(b, accounts - {x}, a);
      assert accounts - {a} - {x} == accounts - {x} - {a};
    }
  }

  lemma {:induction false} SumUnchanged(b: Balances, d: Balances, accounts: set<Address>)
    requires forall a | a in accounts :: Balance(b, a) == Balance(d, a)
    ensures SumOf(b, accounts) == SumOf(d, accounts)
    decreases |accounts|
  {
    if accounts != {} {
      var a :| a in accounts;
      SumWithout(b, accounts, a);
      SumWithout(d, accounts, a);
      SumUnchanged(b, d, accounts - {a});
    }
  }

  /** Accounts without an entry add nothing. */
  lemma SumWithEmpty(b: Balances, x: Address)
    ensures SumOf(b, b.Keys + {x}) == SumOf(b, b.Keys)
  {
    if x !in b {
      SumWithout(b, b.Keys + {x}, x);
      assert b.Keys + {x} - {x} == b.Keys;
    } else {
      assert b.Keys + {x} == b.Keys;
    }
  }

  lemma PutChangesSum(b: Balances, x: Address, amount: int)
    ensures Supply(b[x := Balance(b, x) + amount]) == Supply(b) + amount
  {
    var d := b[x := Balance(b, x) + amount];
    assert d.Keys == b.Keys + {x};
    SumWithEmpty(b, x);
    SumWithout(b, d.Keys, x);
    SumWithout(d, d.Keys, x);
    SumUnchanged(b, d, d.Keys - {x});
  }

  lemma MovedKeepsSupply(b: Balances, from: Address, to: Address, amount: int)
    ensures Supply(Moved(b, from, to, amount)) == Supply(b)
  {
    PutChangesSum(b, from, -amount);
    PutChangesSum(b[from := Balance(b, from) - amount], to, amount);
  }

  lemma {:induction false} PayAllKeepsSupply(b: Balances, self: Address, rs: seq<Recipient>)
    ensures Supply(PayAll(b, self, rs)) == Supply(b)
  {
    if rs != [] {
      var last := rs[|rs| - 1];
      PayAllKeepsSupply(b, self, rs[..|rs| - 1]);
      MovedKeepsSupply(PayAll(b, self, rs[..|rs| - 1]), self, last.to, last.amount);
    }
  }

  /** No run creates or destroys a token: the sum of all balances stays. */
  lemma {:induction false} SupplyNeverChanges(s: State, self: Address, ts: seq<Timed>)
    ensures Supply(Run(s, self, ts).balances) == Supply(s.balances)
  {
    if ts != [] {
      var n := |ts| - 1;
      SupplyNeverChanges(s, self, ts[..n]);
      var before := Run(s, self, ts[..n]);
      match ts[n].action
      case FundBy(from, amount) => MovedKeepsSupply(before.balances, from, self, amount);
      case WithdrawBy(amount) =>
        if before.config.Some? {
          MovedKeepsSupply(before.balances, self, before.config.value.owner, amount);
        }
      case TransferBy(from, to, amount) => MovedKeepsSupply(before.balances, from, to, amount);
      case DisburseBy(_) =>
        if before.config.Some? {
          PayAllKeepsSupply(before.balances, self, before.config.value.recipients);
        }
      case ConfigureBy(_, _, _) =>
    }
  }

  /** The contract's outflow per window is the full total exactly when it pays nothing to itself. */
  lemma FullTotalLeavesExactly(rs: seq<Recipient>, self: Address)
    requires forall r | r in rs :: r.amount > 0
    ensures Owed(rs, self) == 0 <==> forall r | r in rs :: r.to != self
  {
    OwedPositive(rs, self);
  }

  lemma {:induction false} OwedPositive(rs: seq<Recipient>, a: Address)
    requires forall r | r in rs :: r.amount > 0
    ensures Owed(rs, a) > 0 <==> exists r | r in rs :: r.to == a
    ensures Owed(rs, a) >= 0
  {
    if rs != [] {
      var n := |rs| - 1;
      OwedPositive(rs[..n], a);
      assert rs == rs[..n] + [rs[n]];
      assert rs[n] in rs;
    }
  }

  /** The windows paid on a run, with the times at which they were paid. */
  function Paid(s: State, self: Address, ts: seq<Timed>): seq<(nat, nat)> {
    if ts == [] then []
    else
      var n := |ts| - 1;
      var before := Paid(s, self, ts[..n]);
      if !ts[n].action.DisburseBy? then before
      else
        match Disburse(Run(s, self, ts[..n]), self, ts[n].now).1
        case Ok(window) => before + [(window, ts[n].now)]
        case Err(_) => before
  }

  /** Windows are paid in order, each once, and none before it is due. */
  lemma {:induction false} WindowsInOrder(s: State, self: Address, ts: seq<Timed>)
    requires ValidConfig(s) && s.config.Some?
    ensures var paid := Paid(s, self, ts);
            && |paid| == Run(s, self, ts).nextWindow - s.nextWindow
            && forall i | 0 <= i < |paid| ::
                 paid[i].0 == s.nextWindow + i && paid[i].1 >= DueAt(s.config.value, paid[i].0)
  {
    if ts != [] {
      WindowsInOrder(s, self, ts[..|ts| - 1]);
      ConfigNeverChanges(s, self, ts[..|ts| - 1]);
    }
  }
}
