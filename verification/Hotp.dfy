/** One-time passwords (`src/auth/passport/dynamic_password.rs`): the code of a counter value, and
    `HotpVerifier::verify` called by many threads at once.

    The MAC is a parameter; it never fails, as HMAC takes keys of every length. */
module Hotp {
  import opened Bytes

  const COUNTER_MODULUS: nat := 0x1_0000_0000_0000_0000
  const MAX_VERIFY_RETRIES: nat := 3
  const MAX_DIGITS: nat := 9
  const HOTP_DIGITS: nat := 6

  // ---------- codes ----------

  type Digest = d: seq<Byte> | |d| == 20 witness seq(20, _ => 0)

  function Pow10(n: nat): (p: nat)
    ensures p > 0
  {
    if n == 0 then 1 else 10 * Pow10(n - 1)
  }

  function ClampDigits(digits: nat): nat {
    if digits < 1 then 1 else if digits > MAX_DIGITS then MAX_DIGITS else digits
  }

  /** Four bytes from the place that the low half of the last byte names, without the top bit. */
  function Truncated(mac: Digest): nat {
    var offset := mac[19] % 16;
    FourBytes(mac[offset] % 128, mac[offset + 1], mac[offset + 2], mac[offset + 3])
  }

  function FourBytes(a: int, b: int, c: int, d: int): int { a * 0x100_0000 + b * 0x1_0000 + c * 0x100 + d }

  function HotpCode(mac: Digest, digits: nat): nat { Truncated(mac) % Pow10(ClampDigits(digits)) }

  /** Section 5.3 of RFC 4226: the four bytes as a big-endian number, modulo 2^31. */
  lemma TruncationIsMod31(mac: Digest)
    ensures var offset := mac[19] % 16;
            Truncated(mac) == BigEndian(mac[offset..offset + 4]) % 0x8000_0000
  {
    var offset := mac[19] % 16;
    var four := mac[offset..offset + 4];
    assert four[..3][..2] == four[..2] && four[..2][..1] == four[..1] && four[..1][..0] == [];
    var a: int, b: int, c: int, d: int := four[0], four[1], four[2], four[3];
    assert BigEndian(four[..1]) == a;
    assert BigEndian(four[..2]) == a * 256 + b;
    assert BigEndian(four[..3]) == (a * 256 + b) * 256 + c;
    DropTopBit(a, b * 0x1_0000 + c * 0x100 + d);
  }

  lemma DropTopBit(first: Byte, rest: nat)
    requires rest < 0x100_0000
    ensures (first * 0x100_0000 + rest) % 0x8000_0000 == (first % 128) * 0x100_0000 + rest
  {
    if first >= 128 {
      assert first % 128 == first - 128;
    }
  }

  function Digit(d: nat): char
    requires d < 10
  {
    "0123456789"[d]
  }

  function Decimal(n: nat): (s: string)
    ensures s != []
  {
    if n < 10 then [Digit(n)] else Decimal(n / 10) + [Digit(n % 10)]
  }

  function Zeros(n: nat): (s: string)
    ensures |s| == n && forall i :: 0 <= i < n ==> s[i] == '0'
  {
    seq(n, _ => '0')
  }

  function FormatCode(code: nat, digits: nat): string {
    var s := Decimal(code);
    if |s| < digits then Zeros(digits - |s|) + s else s
  }

  function DigitValue(c: char): int { c as int - '0' as int }

  function ValueOf(s: string): int {
    if s == [] then 0 else ValueOf(s[..|s| - 1]) * 10 + DigitValue(s[|s| - 1])
  }

  lemma {:induction false} ValueOfDecimal(n: nat)
    ensures ValueOf(Decimal(n)) == n
  {
    if n >= 10 {
      ValueOfDecimal(n / 10);
      var s := Decimal(n);
      assert s[..|s| - 1] == Decimal(n / 10);
    } else {
      assert Decimal(n)[..0] == [];
    }
  }

  lemma {:induction false} ValueOfPadded(n: nat, s: string)
    ensures ValueOf(Zeros(n) + s) == ValueOf(s)
    decreases n, |s|
  {
    var all := Zeros(n) + s;
    if s != [] {
      assert all[..|all| - 1] == Zeros(n) + s[..|s| - 1];
      ValueOfPadded(n, s[..|s| - 1]);
    } else if n > 0 {
      assert all[..|all| - 1] == Zeros(n - 1) + [];
      ValueOfPadded(n - 1, []);
    }
  }

  predicate AllDigits(s: string) { forall i :: 0 <= i < |s| ==> '0' <= s[i] <= '9' }

  lemma {:induction false} DecimalDigits(n: nat)
    ensures AllDigits(Decimal(n))
  {
    if n >= 10 {
      DecimalDigits(n / 10);
    }
  }

  lemma {:induction false} DecimalLength(n: nat, digits: nat)
    requires n < Pow10(digits) && digits >= 1
    ensures |Decimal(n)| <= digits
  {
    assert Pow10(1) == 10;
    if n >= 10 {
      DecimalLength(n / 10, digits - 1);
    }
  }

  /** A formatted code shows its number, in exactly the digits asked for, so two codes of the same
      verifier look alike only when they are equal. */
  lemma FormatShowsCode(mac: Digest, digits: nat)
    ensures var code := HotpCode(mac, digits);
            ValueOf(FormatCode(code, ClampDigits(digits))) == code
            && |FormatCode(code, ClampDigits(digits))| == ClampDigits(digits)
            && AllDigits(FormatCode(code, ClampDigits(digits)))
    ensures ClampDigits(digits) == if digits == 0 then 1 else if digits <= 9 then digits else 9
  {
    var code := HotpCode(mac, digits);
    var s := Decimal(code);
    ValueOfDecimal(code);
    DecimalDigits(code);
    DecimalLength(code, ClampDigits(digits));
    ValueOfPadded(ClampDigits(digits) - |s|, s);
  }

  // ---------- the verifier ----------

  function CodeAt(macOf: nat -> Digest, counter: nat): string {
    FormatCode(HotpCode(macOf(counter), HOTP_DIGITS), HOTP_DIGITS)
  }

  /** Section 5.3 of RFC 4226 with six digits: the code of a counter value spells, in exactly six
      digits, the four bytes that the low half of the last byte points at, big-endian, modulo
      2^31 and then modulo a million. */
  lemma CodeIs(macOf: nat -> Digest, counter: nat)
    ensures var mac, code := macOf(counter), CodeAt(macOf, counter);
            var offset := mac[19] % 16;
            && |code| == 6 && AllDigits(code)
            && ValueOf(code) == BigEndian(mac[offset..offset + 4]) % 0x8000_0000 % 1_000_000
  {
    TruncationIsMod31(macOf(counter));
    FormatShowsCode(macOf(counter), HOTP_DIGITS);
    Million();
  }

  lemma Million()
    ensures Pow10(6) == 1_000_000
  {
    assert Pow10(3) == 1000;
  }

  class HotpVerifier {
    const macOf: nat -> Digest
    var counter: nat

    ghost predicate Valid()
      reads this
    {
      counter < COUNTER_MODULUS
    }

    constructor (macOf: nat -> Digest, counter: nat)
      requires counter < COUNTER_MODULUS
      ensures Valid() && this.macOf == macOf && this.counter == counter
    {
      this.macOf := macOf;
      this.counter := counter;
    }

    method CompareExchange(current: nat, next: nat) returns (ok: bool)
      requires Valid() && next < COUNTER_MODULUS
      modifies this`counter
      ensures Valid() && ok == (old(counter) == current)
      ensures counter == if ok then next else old(counter)
    {
      ok := counter == current;
      if ok {
        counter := next;
      }
    }

    /** One call while others are at work: `others[q]` of them succeed between its load number q
        and the exchange that follows.  It wins exchange number r, or finds another code at load
        number r, or loses all the exchanges it may try. */
    method Verify(code: string, others: seq<nat>) returns (accepted: bool)
      requires Valid() && |others| == MAX_VERIFY_RETRIES
      modifies this`counter
      ensures Valid()
      ensures exists r :: 0 <= r <= MAX_VERIFY_RETRIES
                          && (forall q :: 0 <= q < r ==> Loses(macOf, old(counter), code, others, q))
                          && (if accepted then
                                && r < MAX_VERIFY_RETRIES && Wins(macOf, old(counter), code, others, r)
                                && counter == (LoadAt(old(counter), others, r) + 1) % COUNTER_MODULUS
                              else
                                && counter == LoadAt(old(counter), others, r)
                                && (r < MAX_VERIFY_RETRIES ==> code != CodeAt(macOf, LoadAt(old(counter), others, r))))
    {
      hide CodeAt, LoadAt;
      var retries := 0;
      LoadsFirst(counter, others);
      while true
        invariant 0 <= retries < MAX_VERIFY_RETRIES && Valid() && counter == LoadAt(old(counter), others, retries)
        invariant forall q :: 0 <= q < retries ==> Loses(macOf, old(counter), code, others, q)
        decreases MAX_VERIFY_RETRIES - retries
      {
        var current := counter;
        if CodeAt(macOf, current) == code {
          LoadsNext(old(counter), others, retries);
          counter := (counter + others[retries]) % COUNTER_MODULUS;
          var ok := CompareExchange(current, (current + 1) % COUNTER_MODULUS);
          StillThere(current, others[retries]);
          if ok {
            assert Wins(macOf, old(counter), code, others, retries);
            return true;
          }
          assert Loses(macOf, old(counter), code, others, retries);
          retries := retries + 1;
          if retries >= MAX_VERIFY_RETRIES {
            return false;
          }
        } else {
          return false;
        }
      }
    }
  }

  function SumOf(others: seq<nat>): nat {
    if others == [] then 0 else SumOf(others[..|others| - 1]) + others[|others| - 1]
  }

  /** What load number q sees. */
  function LoadAt(counter: nat, others: seq<nat>, q: nat): nat
    requires q <= |others|
  {
    (counter + SumOf(others[..q])) % COUNTER_MODULUS
  }

  predicate Wins(macOf: nat -> Digest, counter: nat, code: string, others: seq<nat>, q: nat) {
    q < |others| && code == CodeAt(macOf, LoadAt(counter, others, q)) && others[q] % COUNTER_MODULUS == 0
  }

  predicate Loses(macOf: nat -> Digest, counter: nat, code: string, others: seq<nat>, q: nat) {
    q < |others| && code == CodeAt(macOf, LoadAt(counter, others, q)) && others[q] % COUNTER_MODULUS != 0
  }

  /** A round is won when the presented code is that of the value loaded, which is on from the start
      by the successes of others so far, and their successes since come full circle; and lost when
      they do not. */
  lemma WinsAndLoses(macOf: nat -> Digest, counter: nat, code: string, others: seq<nat>, q: nat)
    requires q < |others|
    ensures var right := code == CodeAt(macOf, (counter + SumOf(others[..q])) % 0x1_0000_0000_0000_0000);
            && (Wins(macOf, counter, code, others, q) <==> right && others[q] % 0x1_0000_0000_0000_0000 == 0)
            && (Loses(macOf, counter, code, others, q) <==> right && others[q] % 0x1_0000_0000_0000_0000 != 0)
  {
    hide CodeAt;
  }

  lemma LoadsFirst(counter: nat, others: seq<nat>)
    requires counter < COUNTER_MODULUS
    ensures LoadAt(counter, others, 0) == counter
  {
  }

  lemma LoadsNext(counter: nat, others: seq<nat>, q: nat)
    requires q < |others|
    ensures LoadAt(counter, others, q + 1) == (LoadAt(counter, others, q) + others[q]) % COUNTER_MODULUS
  {
    assert others[..q + 1][..q] == others[..q];
  }

  lemma StillThere(current: nat, others: nat)
    requires current < COUNTER_MODULUS
    ensures (current + others) % COUNTER_MODULUS == current <==> others % COUNTER_MODULUS == 0
  {
    SameResidue(current, current + others);
  }

  // ---------- many threads ----------

  type CallId = nat

  /** Where a call stands.  `began` is how many successes there had been when it began, and
      `lost` the successes that beat it to the counter so far. */
  datatype Call =
    | Loading(code: string, began: nat, lost: seq<nat>)
    | Comparing(code: string, began: nat, lost: seq<nat>, current: nat, loadedAt: nat)
    | Accepted(code: string, began: nat, position: nat)
    | Mismatched(code: string, began: nat, current: nat, loadedAt: nat)
    | GaveUp(code: string, began: nat, lost: seq<nat>)

  datatype Success = Success(call: CallId, code: string, consumed: nat)

  /** The shared counter, the calls, and the successes so far in the order in which they happened. */
  datatype State = State(counter: nat, calls: map<CallId, Call>, log: seq<Success>)

  datatype Step = Begin(id: CallId, code: string) | Load(id: CallId) | Exchange(id: CallId)

  predicate Enabled(s: State, step: Step) {
    match step
    case Begin(id, _) => id !in s.calls
    case Load(id) => id in s.calls && s.calls[id].Loading?
    case Exchange(id) => id in s.calls && s.calls[id].Comparing?
  }

  /** One atomic step of one thread: the load and the comparison of codes, or the exchange. */
  function Next(macOf: nat -> Digest, s: State, step: Step): State
    requires Enabled(s, step)
  {
    match step
    case Begin(id, code) => s.(calls := s.calls[id := Loading(code, |s.log|, [])])
    case Load(id) =>
      var c := s.calls[id];
      s.(calls := s.calls[id := if CodeAt(macOf, s.counter) == c.code
      then Comparing(c.code, c.began, c.lost, s.counter, |s.log|)
      else Mismatched(c.code, c.began, s.counter, |s.log|)])
    case Exchange(id) =>
      var c := s.calls[id];
      if s.counter == c.current then
        State((c.current + 1) % COUNTER_MODULUS, s.calls[id := Accepted(c.code, c.began, |s.log|)],
              s.log + [Success(id, c.code, c.current)])
      else
        var lost := c.lost + [c.loadedAt];
        s.(calls := s.calls[id := if |lost| >= MAX_VERIFY_RETRIES then GaveUp(c.code, c.began, lost)
        else Loading(c.code, c.began, lost)])
  }

  /** Whatever other calls do between the two steps of a round, the steps are those of the loop: a
      load that finds another code refuses, an exchange wins exactly when the counter is still at the
      value loaded, and then moves it on by one, and the third lost exchange gives up. */
  lemma RoundIsItsSteps(macOf: nat -> Digest, s: State, meanwhile: State, id: CallId)
    requires id in s.calls && s.calls[id].Loading?
    requires id in meanwhile.calls && meanwhile.calls[id] == Next(macOf, s, Load(id)).calls[id]
    ensures var c, loaded := s.calls[id], Next(macOf, s, Load(id));
            && loaded.counter == s.counter && loaded.log == s.log
            && if c.code != CodeAt(macOf, s.counter) then loaded.calls[id].Mismatched?
               else
                 && Enabled(meanwhile, Exchange(id))
                 && var after := Next(macOf, meanwhile, Exchange(id));
                 if meanwhile.counter == s.counter then
                   && after.calls[id].Accepted? && after.counter == (s.counter + 1) % 0x1_0000_0000_0000_0000
                   && after.log == meanwhile.log + [Success(id, c.code, s.counter)]
                 else
                   && after.counter == meanwhile.counter && after.log == meanwhile.log
                   && if |c.lost| + 1 >= 3 then after.calls[id].GaveUp?
                      else after.calls[id] == Loading(c.code, c.began, c.lost + [|s.log|])
  {
    hide CodeAt;
  }

  ghost predicate Possible(macOf: nat -> Digest, s: State, steps: seq<Step>)
    decreases |steps|
  {
    steps == [] || (Enabled(s, steps[0]) && Possible(macOf, Next(macOf, s, steps[0]), steps[1..]))
  }

  ghost function Run(macOf: nat -> Digest, s: State, steps: seq<Step>): State
    requires Possible(macOf, s, steps)
    decreases |steps|
  {
    if steps == [] then s else Run(macOf, Next(macOf, s, steps[0]), steps[1..])
  }

  function Fresh(initial: nat): State { State(initial, map[], []) }

  /** The counter's value after `n` successes. */
  function ValueAfter(initial: nat, n: nat): nat { (initial + n) % COUNTER_MODULUS }

  /** Success number `n` took the counter value then current, and presented its code. */
  ghost predicate LogRight(macOf: nat -> Digest, initial: nat, log: seq<Success>) {
    forall n :: 0 <= n < |log|
                ==> log[n].consumed == ValueAfter(initial, n) && log[n].code == CodeAt(macOf, log[n].consumed)
  }

  /** Three different successes of other calls, each since this call began and each with the very
      code that this call presented. */
  ghost predicate LostTo(log: seq<Success>, id: CallId, code: string, began: nat, lost: seq<nat>) {
    && (forall i :: 0 <= i < |lost|
                    ==> began <= lost[i] < |log| && log[lost[i]].code == code && log[lost[i]].call != id)
    && (forall i, j :: 0 <= i < j < |lost| ==> lost[i] < lost[j])
  }

  ghost predicate CallRight(macOf: nat -> Digest, initial: nat, log: seq<Success>, id: CallId, c: Call) {
    match c
    case Loading(code, began, lost) =>
      began <= |log| && LostTo(log, id, code, began, lost) && |lost| < MAX_VERIFY_RETRIES
    case Comparing(code, began, lost, current, loadedAt) =>
      && began <= loadedAt <= |log| && LostTo(log, id, code, began, lost) && |lost| < MAX_VERIFY_RETRIES
      && (forall i :: 0 <= i < |lost| ==> lost[i] < loadedAt)
      && current == ValueAfter(initial, loadedAt) && code == CodeAt(macOf, current)
    case Accepted(code, began, position) =>
      began <= position < |log| && log[position].call == id && log[position].code == code
    case Mismatched(code, began, current, loadedAt) =>
      began <= loadedAt <= |log| && current == ValueAfter(initial, loadedAt) && code != CodeAt(macOf, current)
    case GaveUp(code, began, lost) => LostTo(log, id, code, began, lost) && |lost| == MAX_VERIFY_RETRIES
  }

  /** Only the accepted calls are in the log, each where it says. */
  ghost predicate LogOwned(s: State) {
    forall n :: 0 <= n < |s.log|
                ==> s.log[n].call in s.calls && s.calls[s.log[n].call].Accepted? && s.calls[s.log[n].call].position == n
  }

  ghost predicate Invariant(macOf: nat -> Digest, initial: nat, s: State) {
    && s.counter == ValueAfter(initial, |s.log|)
    && LogRight(macOf, initial, s.log) && LogOwned(s)
    && forall id :: id in s.calls ==> CallRight(macOf, initial, s.log, id, s.calls[id])
  }

  lemma LostLonger(log: seq<Success>, e: Success, id: CallId, code: string, began: nat, lost: seq<nat>)
    requires LostTo(log, id, code, began, lost)
    ensures LostTo(log + [e], id, code, began, lost)
  {
  }

  lemma CallRightLonger(macOf: nat -> Digest, initial: nat, log: seq<Success>, e: Success, id: CallId, c: Call)
    requires CallRight(macOf, initial, log, id, c)
    ensures CallRight(macOf, initial, log + [e], id, c)
  {
    hide LostTo, CodeAt;
    if !c.Accepted? && !c.Mismatched? {
      LostLonger(log, e, id, c.code, c.began, c.lost);
    }
  }

  /** A failed exchange has been beaten by the success at the position where it had loaded. */
  lemma BeatenThere(macOf: nat -> Digest, initial: nat, s: State, id: CallId)
    requires Invariant(macOf, initial, s) && id in s.calls && s.calls[id].Comparing? && s.counter != s.calls[id].current
    ensures var c := s.calls[id]; LostTo(s.log, id, c.code, c.began, c.lost + [c.loadedAt])
  {
    var c := s.calls[id];
    assert CallRight(macOf, initial, s.log, id, c);
    assert c.loadedAt < |s.log|;
    assert s.log[c.loadedAt].consumed == c.current && s.log[c.loadedAt].code == c.code;
  }

  lemma ValueNext(initial: nat, n: nat)
    ensures ValueAfter(initial, n + 1) == (ValueAfter(initial, n) + 1) % COUNTER_MODULUS
  {
  }

  lemma InvariantKept(macOf: nat -> Digest, initial: nat, s: State, step: Step)
    requires Invariant(macOf, initial, s) && Enabled(s, step)
    ensures Invariant(macOf, initial, Next(macOf, s, step))
  {
    hide ValueAfter, CodeAt;
    match step
    case Begin(id, code) =>
    case Load(id) =>
      assert CallRight(macOf, initial, s.log, id, s.calls[id]);
    case Exchange(id) =>
      var c := s.calls[id];
      assert CallRight(macOf, initial, s.log, id, c);
      if s.counter == c.current {
        ValueNext(initial, |s.log|);
        var e := Success(id, c.code, c.current);
        assert forall n :: 0 <= n < |s.log| ==> s.log[n].call != id;
        forall other | other in s.calls && other != id
          ensures CallRight(macOf, initial, s.log + [e], other, s.calls[other]) {
          CallRightLonger(macOf, initial, s.log, e, other, s.calls[other]);
        }
      } else {
        BeatenThere(macOf, initial, s, id);
      }
  }

  lemma {:induction false} InvariantAlways(macOf: nat -> Digest, initial: nat, s: State, steps: seq<Step>)
    requires Invariant(macOf, initial, s) && Possible(macOf, s, steps)
    ensures Invariant(macOf, initial, Run(macOf, s, steps))
    decreases |steps|
  {
    if steps != [] {
      InvariantKept(macOf, initial, s, steps[0]);
      InvariantAlways(macOf, initial, Next(macOf, s, steps[0]), steps[1..]);
    }
  }

  ghost predicate Reachable(macOf: nat -> Digest, initial: nat, s: State) {
    exists steps: seq<Step> :: Possible(macOf, Fresh(initial), steps) && Run(macOf, Fresh(initial), steps) == s
  }

  lemma ReachableRight(macOf: nat -> Digest, initial: nat, s: State)
    requires initial < COUNTER_MODULUS && Reachable(macOf, initial, s)
    ensures Invariant(macOf, initial, s)
  {
    var steps: seq<Step> :| Possible(macOf, Fresh(initial), steps) && Run(macOf, Fresh(initial), steps) == s;
    InvariantAlways(macOf, initial, Fresh(initial), steps);
  }

  /** Under every interleaving: the counter has advanced once for each accepted call; success
      number n consumed the n-th value from the start and presented its code; and each accepted
      call is there exactly once. */
  lemma AdvancesOncePerSuccess(macOf: nat -> Digest, initial: nat, s: State)
    requires initial < COUNTER_MODULUS && Reachable(macOf, initial, s)
    ensures s.counter == ValueAfter(initial, |s.log|)
    ensures forall n :: 0 <= n < |s.log|
                        ==> s.log[n].consumed == ValueAfter(initial, n)
                            && s.log[n].code == CodeAt(macOf, ValueAfter(initial, n))
    ensures forall n, m :: 0 <= n < m < |s.log| ==> s.log[n].call != s.log[m].call
    ensures forall id :: id in s.calls && s.calls[id].Accepted? ==> exists n :: 0 <= n < |s.log| && s.log[n].call == id
  {
    hide ValueAfter, CodeAt;
    ReachableRight(macOf, initial, s);
    forall id | id in s.calls && s.calls[id].Accepted? ensures exists n :: 0 <= n < |s.log| && s.log[n].call == id {
      assert CallRight(macOf, initial, s.log, id, s.calls[id]);
      assert s.log[s.calls[id].position].call == id;
    }
  }

  /** No counter value is accepted twice before the counter has gone all the way round. */
  lemma NoValueTwice(macOf: nat -> Digest, initial: nat, s: State, n: nat, m: nat)
    requires initial < COUNTER_MODULUS && Reachable(macOf, initial, s) && n < m < |s.log|
    ensures s.log[n].consumed == s.log[m].consumed <==> (m - n) % COUNTER_MODULUS == 0
  {
    hide *;
    AdvancesOncePerSuccess(macOf, initial, s);
    SameValue(initial, n, m);
  }

  lemma SameValue(initial: nat, n: nat, m: nat)
    requires n < m
    ensures ValueAfter(initial, n) == ValueAfter(initial, m) <==> (m - n) % COUNTER_MODULUS == 0
  {
    SameResidue(initial + n, initial + m);
  }

  lemma SameResidue(a: nat, b: nat)
    requires a <= b
    ensures a % COUNTER_MODULUS == b % COUNTER_MODULUS <==> (b - a) % COUNTER_MODULUS == 0
  {
    var qa, qb := a / COUNTER_MODULUS, b / COUNTER_MODULUS;
    assert a == qa * COUNTER_MODULUS + a % COUNTER_MODULUS && b == qb * COUNTER_MODULUS + b % COUNTER_MODULUS;
  }

  /** A refusal is right about some moment of the call: at a moment since it began the counter's
      code was another one; or, when it gave up, at least three other calls have succeeded since
      it began, and with the same code. */
  lemma RefusedForAReason(macOf: nat -> Digest, initial: nat, s: State, id: CallId)
    requires initial < COUNTER_MODULUS && Reachable(macOf, initial, s) && id in s.calls
    ensures var c := s.calls[id];
            && (c.Mismatched?
                ==> c.began <= c.loadedAt <= |s.log| && c.code != CodeAt(macOf, ValueAfter(initial, c.loadedAt)))
            && (c.GaveUp? ==> exists x, y, z :: c.began <= x < y < z < |s.log|
                                                && BeatenBy(s.log, x, id, c.code) && BeatenBy(s.log, y, id, c.code)
                                                && BeatenBy(s.log, z, id, c.code))
  {
    hide ValueAfter, CodeAt;
    ReachableRight(macOf, initial, s);
    var c := s.calls[id];
    assert CallRight(macOf, initial, s.log, id, c);
    if c.GaveUp? {
      assert BeatenBy(s.log, c.lost[0], id, c.code) && BeatenBy(s.log, c.lost[1], id, c.code)
             && BeatenBy(s.log, c.lost[2], id, c.code);
    }
  }

  ghost predicate BeatenBy(log: seq<Success>, n: nat, id: CallId, code: string) {
    n < |log| && log[n].call != id && log[n].code == code
  }
}
