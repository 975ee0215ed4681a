/** Admission control: a token bucket for bytes, with doubles idealised as reals, and
    a bound on the streams that are open at once. */
module Admission {

  /** Tokens left, and the clock reading of the last refill in milliseconds. */
  datatype Bucket = Bucket(tokens: real, refilled: int)

  function Min(a: real, b: real): real {
    if a < b then a else b
  }

  /** A clock that stands still or goes backwards refills nothing. */
  function Refill(b: Bucket, capacity: nat, now: int): Bucket {
    if capacity == 0 || now <= b.refilled then b
    else Bucket(Min(capacity as real, b.tokens + capacity as real * (now - b.refilled) as real / 1000.0), now)
  }

  /** A second without requests fills any bucket. */
  lemma {:induction false} FullAfterOneSecond(b: Bucket, capacity: nat, now: int)
    requires b.tokens >= 0.0 && capacity > 0 && now >= b.refilled + 1000
    ensures Refill(b, capacity, now) == Bucket(capacity as real, now)
  {
    assert capacity as real * (now - b.refilled) as real >= capacity as real * 1000.0;
  }

  /** From empty, tokens come evenly: in `ms` of a second, that part of the capacity. */
  lemma {:induction false} RefillIsEven(capacity: nat, refilled: int, ms: nat)
    requires capacity > 0 && ms <= 1000
    ensures Refill(Bucket(0.0, refilled), capacity, refilled + ms).tokens * 1000.0 == capacity as real * ms as real
  {
    assert capacity as real * ms as real <= capacity as real * 1000.0;
  }

  /** Refilling on the way changes nothing. */
  lemma {:induction false} RefillInSteps(b: Bucket, capacity: nat, t1: int, t2: int)
    requires 0.0 <= b.tokens <= capacity as real && b.refilled <= t1 <= t2
    ensures Refill(Refill(b, capacity, t1), capacity, t2) == Refill(b, capacity, t2)
  {
    if capacity > 0 && b.refilled < t1 < t2 {
      EarnedAdds(capacity, t1 - b.refilled, t2 - t1);
      EarnedIsPositive(capacity, t2 - t1);
    }
  }

  datatype Verdict = Verdict(b: Bucket, accepted: bool)

  function TryBytes(b: Bucket, capacity: nat, bytes: nat, now: int): Verdict {
    if bytes == 0 || capacity == 0 then Verdict(b, true)
    else
      var r := Refill(b, capacity, now);
      if r.tokens < bytes as real then Verdict(r, false) else Verdict(r.(tokens := r.tokens - bytes as real), true)
  }

  /** A request for bytes, or a look at the state, which refills too. */
  datatype Call = Ask(bytes: nat, now: int) | Look(now: int)

  function After(b: Bucket, capacity: nat, call: Call): Bucket {
    match call
    case Ask(bytes, now) => TryBytes(b, capacity, bytes, now).b
    case Look(now) => Refill(b, capacity, now)
  }

  /** The bytes a call lets in. */
  function LetIn(b: Bucket, capacity: nat, call: Call): nat {
    if call.Ask? && TryBytes(b, capacity, call.bytes, call.now).accepted then call.bytes else 0
  }

  ghost predicate Sound(b: Bucket, capacity: nat) {
    0.0 <= b.tokens <= capacity as real
  }

  /** What the bucket earns while its clock goes on by `ms`. */
  function Earned(capacity: nat, ms: int): real {
    capacity as real * ms as real / 1000.0
  }

  lemma {:induction false} EarnedAdds(capacity: nat, a: int, b: int)
    ensures Earned(capacity, a + b) == Earned(capacity, a) + Earned(capacity, b)
  {
  }

  lemma {:induction false} EarnedIsPositive(capacity: nat, ms: int)
    requires ms >= 0
    ensures Earned(capacity, ms) >= 0.0
  {
  }

  lemma {:induction false} RefillKeeps(b: Bucket, capacity: nat, now: int)
    requires Sound(b, capacity)
    ensures var r := Refill(b, capacity, now);
      && Sound(r, capacity) && r.refilled >= b.refilled
      && r.tokens <= b.tokens + Earned(capacity, r.refilled - b.refilled)
  {
    EarnedIsPositive(capacity, Refill(b, capacity, now).refilled - b.refilled);
  }

  /** One call: tokens stay in range, and what is let in is paid for. */
  lemma {:induction false} CallKeeps(b: Bucket, capacity: nat, call: Call)
    requires Sound(b, capacity) && capacity > 0
    ensures var r := After(b, capacity, call);
      && Sound(r, capacity) && r.refilled >= b.refilled
      && r.tokens + LetIn(b, capacity, call) as real <= b.tokens + Earned(capacity, r.refilled - b.refilled)
  {
    RefillKeeps(b, capacity, call.now);
    EarnedIsPositive(capacity, 0);
    hide Refill, Earned;
  }

  /** What is let in is exactly what is taken out of the refilled bucket; a request that is
      refused takes nothing. */
  lemma {:induction false} CallPaysExactly(b: Bucket, capacity: nat, call: Call)
    requires capacity > 0 && (call.Ask? ==> call.bytes > 0)
    ensures var r := After(b, capacity, call);
      && r.tokens + LetIn(b, capacity, call) as real == Refill(b, capacity, call.now).tokens
      && r.refilled == (if call.now > b.refilled then call.now else b.refilled)
  {
  }

  /** The bytes let in by a run of calls, and the bucket after it. */
  datatype Total = Total(b: Bucket, bytes: nat)

  function Run(b: Bucket, capacity: nat, calls: seq<Call>): Total {
    if calls == [] then Total(b, 0)
    else
      var t, call := Run(b, capacity, calls[..|calls| - 1]), calls[|calls| - 1];
      Total(After(t.b, capacity, call), t.bytes + LetIn(t.b, capacity, call))
  }

  lemma {:induction false} RunKeeps(b: Bucket, capacity: nat, calls: seq<Call>)
    requires Sound(b, capacity) && capacity > 0
    ensures var t := Run(b, capacity, calls);
      && Sound(t.b, capacity) && t.b.refilled >= b.refilled
      && t.b.tokens + t.bytes as real <= b.tokens + Earned(capacity, t.b.refilled - b.refilled)
  {
    if calls == [] {
      EarnedIsPositive(capacity, 0);
    } else {
      var front := calls[..|calls| - 1];
      RunKeeps(b, capacity, front);
      var t := Run(b, capacity, front);
      CallKeeps(t.b, capacity, calls[|calls| - 1]);
      var r := After(t.b, capacity, calls[|calls| - 1]);
      EarnedAdds(capacity, t.b.refilled - b.refilled, r.refilled - t.b.refilled);
      hide Earned, After, LetIn, Run;
    }
  }

  /** Between any two points, whatever is asked and whatever the clock shows, no more
      is let in than the bucket holds and earns while its clock goes on. */
  lemma {:induction false} BytesAreBounded(b: Bucket, capacity: nat, calls: seq<Call>)
    requires Sound(b, capacity) && capacity > 0
    ensures var t := Run(b, capacity, calls);
      && 0.0 <= t.b.tokens <= capacity as real
      && t.bytes as real <= capacity as real + Earned(capacity, t.b.refilled - b.refilled)
  {
    RunKeeps(b, capacity, calls);
  }

  class AdmissionControl {
    const capacity: nat
    const maxStreams: nat
    var bucket: Bucket
    var streams: set<nat>

    ghost predicate Valid()
      reads this
    {
      Sound(bucket, capacity) && 0 !in streams && (maxStreams != 0 ==> |streams| <= maxStreams)
    }

    /** The bucket starts full. */
    constructor (capacity: nat, maxStreams: nat, now: int)
      ensures Valid() && bucket == Bucket(capacity as real, now) && streams == {}
    {
      this.capacity, this.maxStreams := capacity, maxStreams;
      bucket, streams := Bucket(capacity as real, now), {};
    }

    method TryAcceptBytes(bytes: nat, now: int) returns (ok: bool)
      requires Valid()
      modifies this`bucket
      ensures Valid() && Verdict(bucket, ok) == TryBytes(old(bucket), capacity, bytes, now)
      ensures ok <==> bytes == 0 || capacity == 0 || bytes as real <= Refill(old(bucket), capacity, now).tokens
    {
      if bytes == 0 || capacity == 0 { return true; }
      RefillTokens(now);
      if bucket.tokens < bytes as real { return false; }
      bucket := bucket.(tokens := bucket.tokens - bytes as real);
      return true;
    }

    method RefillTokens(now: int)
      requires Valid()
      modifies this`bucket
      ensures Valid() && bucket == Refill(old(bucket), capacity, now)
    {
      RefillKeeps(bucket, capacity, now);
      if capacity == 0 { return; }
      var elapsed := if now - bucket.refilled > 0 then now - bucket.refilled else 0;
      if elapsed == 0 { return; }
      var refill := capacity as real * elapsed as real / 1000.0;
      bucket := Bucket(Min(capacity as real, bucket.tokens + refill), now);
    }

    /** A stream is let in once, and only while there is room for it. */
    method TryAcceptStream(id: nat) returns (ok: bool)
      requires Valid()
      modifies this`streams
      ensures Valid() && ok == (id in streams)
      ensures ok <==> id != 0 && (id in old(streams) || maxStreams == 0 || |old(streams)| < maxStreams)
      ensures streams == old(streams) + if ok then {id} else {}
    {
      if id == 0 { return false; }
      if id in streams { return true; }
      if maxStreams != 0 && |streams| >= maxStreams { return false; }
      streams := streams + {id};
      return true;
    }

    method ReleaseStream(id: nat)
      requires Valid()
      modifies this`streams
      ensures Valid() && streams == old(streams) - {id}
    {
      if id == 0 { return; }
      streams := streams - {id};
    }
  }
}
