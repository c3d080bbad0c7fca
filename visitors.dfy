/** The in-memory visitor statistics behind `/api/visitor-stats`: a string
    hash identifying a visitor, the set of visitors seen, the map of recent
    visits, a daily counter and a photo counter. */
module Visitors {
  import Arith
  import opened Options
  import opened JsText

  // ---------------------------------------------------------------------
  // 32-bit arithmetic of the hash
  // ---------------------------------------------------------------------

  const TwoTo32: int := 0x1_0000_0000
  const TwoTo31: int := 0x8000_0000

  /** ToInt32 (ECMA-262, section 7.1.6 of the 2022 edition) on an
      integer-valued number. */
  function ToInt32(x: int): (r: int)
    ensures -TwoTo31 <= r < TwoTo31
  {
    var m := x % TwoTo32;
    if m >= TwoTo31 then m - TwoTo32 else m
  }

  /** ToInt32 only depends on its argument modulo 2^32. */
  lemma ToInt32Periodic(x: int, k: int)
    ensures ToInt32(x + k * TwoTo32) == ToInt32(x)
  {
    Arith.ModAddMultiple(x, k, TwoTo32);
  }

  /** ToInt32 moves its argument by a whole number of 2^32 steps. */
  lemma ToInt32Shift(x: int) returns (k: int)
    ensures ToInt32(x) == x + k * TwoTo32
  {
    k := -(x / TwoTo32) - (if x % TwoTo32 >= TwoTo31 then 1 else 0);
  }

  /** `x << 5` */
  function ShiftLeft5(x: int): int { ToInt32(ToInt32(x) * 32) }

  /** `x & x`, which only converts to a 32-bit integer. */
  function AndSelf(x: int): int { ToInt32(x) }

  /** One step of the loop: `hash = ((hash << 5) - hash) + char; hash = hash & hash`. */
  function Step(h: int, c: int): int { AndSelf(ShiftLeft5(h) - h + c) }

  /** The step is multiplication by 31 and addition, modulo 2^32. */
  lemma StepIsTimes31(h: int, c: int)
    ensures Step(h, c) == ToInt32(31 * h + c)
  {
    var k1 := ToInt32Shift(h);
    var k2 := ToInt32Shift(ToInt32(h) * 32);
    // ToInt32(h) * 32 == h * 32 + (32 * k1) * 2^32
    assert ShiftLeft5(h) == h * 32 + (32 * k1 + k2) * TwoTo32;
    assert ShiftLeft5(h) - h + c == (31 * h + c) + (32 * k1 + k2) * TwoTo32;
    ToInt32Periodic(31 * h + c, 32 * k1 + k2);
  }

  /** The hash of a string, folded from the left. */
  function HashFold(s: string): (h: int)
    ensures -TwoTo31 <= h < TwoTo31
  {
    if |s| == 0 then 0 else Step(HashFold(s[..|s| - 1]), s[|s| - 1] as int)
  }

  /** The polynomial `sum s[i] * 31^(n-1-i)` in exact arithmetic. */
  function Polynomial(s: string): int
  {
    if |s| == 0 then 0 else 31 * Polynomial(s[..|s| - 1]) + s[|s| - 1] as int
  }

  /** The hash is that polynomial reduced to a signed 32-bit integer. */
  lemma {:induction false} HashIsPolynomial(s: string)
    ensures HashFold(s) == ToInt32(Polynomial(s))
  {
    if |s| > 0 {
      var p := s[..|s| - 1];
      var c := s[|s| - 1] as int;
      HashIsPolynomial(p);
      StepIsTimes31(HashFold(p), c);
      var k := ToInt32Shift(Polynomial(p));
      assert 31 * HashFold(p) + c == Polynomial(s) + (31 * k) * TwoTo32;
      ToInt32Periodic(Polynomial(s), 31 * k);
    }
  }

  /** The identifier of the visitor `a` with agent `b`. */
  lemma HashExample()
    ensures HashFold("ab") == 3105 && HashOf("a", "b") == "2e9"
  {
    assert "ab"[..1] == "a";
    assert "a"[..0] == "";
    assert HashFold("a") == 97 by {
      assert ToInt32(31 * 0 + 97) == 97;
      StepIsTimes31(0, 97);
    }
    assert HashFold("ab") == 3105 by {
      assert ToInt32(31 * 97 + 98) == 3105;
      StepIsTimes31(97, 98);
    }
    assert "a" + "b" == "ab";
    assert NatToRadix(3105, 36) == "2e9" by {
      Arith.DivModUnique(3105, 36, 86, 9);
      Arith.DivModUnique(86, 36, 2, 14);
    }
  }

  /** `hashVisitor(ip, userAgent)`: `Math.abs(hash).toString(36)`. */
  function HashOf(ip: string, userAgent: string): string
  {
    NatToRadix(Abs(HashFold(ip + userAgent)), 36)
  }

  /** The identifier spells the absolute hash in radix 36, so two visitors
      share an identifier exactly when their hashes agree up to sign. */
  lemma HashOfDigits(ip: string, userAgent: string)
    ensures ValueOf(DigitsFrom(HashOf(ip, userAgent), 0, 36), 36) == Abs(HashFold(ip + userAgent))
    ensures Abs(HashFold(ip + userAgent)) <= TwoTo31
  {
    RadixRoundTrip(Abs(HashFold(ip + userAgent)), 36);
  }

  lemma HashOfInjective(ip1: string, ua1: string, ip2: string, ua2: string)
    ensures HashOf(ip1, ua1) == HashOf(ip2, ua2) <==>
      Abs(HashFold(ip1 + ua1)) == Abs(HashFold(ip2 + ua2))
  {
    HashOfDigits(ip1, ua1);
    HashOfDigits(ip2, ua2);
  }

  /** The loop of `hashVisitor`. */
  method HashVisitor(ip: string, userAgent: string) returns (id: string)
    ensures id == HashOf(ip, userAgent)
  {
    var str := ip + userAgent;
    var hash := 0;
    var i := 0;
    while i < |str|
      invariant 0 <= i <= |str|
      invariant hash == HashFold(str[..i])
    {
      var ch := str[i] as int;
      assert str[..i + 1][..i] == str[..i];
      hash := ShiftLeft5(hash) - hash + ch;
      hash := AndSelf(hash);
      i := i + 1;
    }
    assert str[..|str|] == str;
    id := NatToRadix(Abs(hash), 36);
  }

  // ---------------------------------------------------------------------
  // Request details
  // ---------------------------------------------------------------------

  /** The text before the first comma. */
  function FirstField(s: string): (r: string)
    ensures |r| <= |s| && r == s[..|r|] && ',' !in r
    ensures |r| < |s| ==> s[|r|] == ','
  {
    if |s| == 0 || s[0] == ',' then "" else [s[0]] + FirstField(s[1..])
  }

  /** The client address: the first `x-forwarded-for` entry, else the
      request's own address, else `unknown`; a missing header is empty. */
  function ClientIp(forwarded: string, requestIp: string): (ip: string)
    ensures forwarded != "" ==> ip == FirstField(forwarded)
    ensures forwarded == "" && requestIp != "" ==> ip == requestIp
    ensures forwarded == "" && requestIp == "" ==> ip == "unknown"
  {
    if forwarded != "" then FirstField(forwarded) else if requestIp != "" then requestIp else "unknown"
  }

  function ClientAgent(userAgent: string): string
  {
    if userAgent != "" then userAgent else "unknown"
  }

  // ---------------------------------------------------------------------
  // Unique visitors
  // ---------------------------------------------------------------------

  /** Recording a visit: a new identifier joins the set and bumps the
      count by one; a known one changes neither. */
  function Visit(seen: set<string>, count: int, id: string): (r: (set<string>, int))
    ensures r.0 == seen + {id}
    ensures r.1 == if id in seen then count else count + 1
  {
    if id in seen then (seen, count) else (seen + {id}, count + 1)
  }

  function VisitAll(seen: set<string>, count: int, ids: seq<string>): (set<string>, int)
    decreases |ids|
  {
    if |ids| == 0 then (seen, count)
    else var r := Visit(seen, count, ids[0]); VisitAll(r.0, r.1, ids[1..])
  }

  function Elements(ids: seq<string>): set<string>
  {
    set k | 0 <= k < |ids| :: ids[k]
  }

  lemma ElementsCons(ids: seq<string>)
    requires |ids| > 0
    ensures Elements(ids) == {ids[0]} + Elements(ids[1..])
  {
    var rest := Elements(ids[1..]);
    forall x | x in Elements(ids) ensures x in {ids[0]} + rest {
      var k :| 0 <= k < |ids| && ids[k] == x;
      if k > 0 { assert ids[1..][k - 1] == x; }
    }
    forall x | x in rest ensures x in Elements(ids) {
      var k :| 0 <= k < |ids[1..]| && ids[1..][k] == x;
      assert ids[k + 1] == x;
    }
  }

  /** How the count of new identifiers splits off the first one. */
  lemma NewCountCons(seen: set<string>, id: string, rest: set<string>)
    ensures id in seen ==> ({id} + rest) - seen == rest - seen
    ensures id !in seen ==> |({id} + rest) - seen| == |rest - (seen + {id})| + 1
  {
    if id !in seen {
      assert ({id} + rest) - seen == (rest - (seen + {id})) + {id};
    }
  }

  /** Over any run of visits the count grows by the number of distinct
      identifiers not seen before, however often each comes back. */
  lemma {:induction false} CountsDistinct(seen: set<string>, count: int, ids: seq<string>)
    ensures var r := VisitAll(seen, count, ids);
      r.0 == seen + Elements(ids) && r.1 == count + |Elements(ids) - seen|
    decreases |ids|
  {
    if |ids| > 0 {
      var v := Visit(seen, count, ids[0]);
      CountsDistinct(v.0, v.1, ids[1..]);
      ElementsCons(ids);
      NewCountCons(seen, ids[0], Elements(ids[1..]));
    } else {
      assert Elements(ids) == {};
    }
  }

  // ---------------------------------------------------------------------
  // Online users
  // ---------------------------------------------------------------------

  const FiveMinutes: int := 5 * 60 * 1000

  /** The visits no older than `cutoff`. */
  function Live(m: map<string, int>, cutoff: int): (r: map<string, int>)
    ensures forall k :: k in r <==> k in m && m[k] >= cutoff
    ensures forall k :: k in r ==> r[k] == m[k]
  {
    map k | k in m && m[k] >= cutoff :: m[k]
  }

  /** Expiring twice with the same cutoff is expiring once, and a later
      cutoff removes at least as much. */
  lemma LiveIdempotent(m: map<string, int>, cutoff: int, later: int)
    requires cutoff <= later
    ensures Live(Live(m, cutoff), cutoff) == Live(m, cutoff)
    ensures Live(Live(m, cutoff), later) == Live(m, later)
    ensures Live(m, later).Keys <= Live(m, cutoff).Keys
  {
  }

  /** The simulated activity of the GET handler: with the first random draw
      below 0.1, between one and three photos, chosen by the second draw
      in [0, 1); otherwise none. */
  function Activity(r1: real, r2: real): (n: nat)
    requires 0.0 <= r2 < 1.0
    ensures n <= 3 && (n == 0 <==> r1 >= 0.1)
  {
    if r1 < 0.1 then (r2 * 3.0).Floor + 1 else 0
  }

  datatype Counters = Counters(totalVisitors: int, todayVisitors: int, onlineNow: int,
                               photosEdited: int, countries: int, lastReset: string)

  /** The JSON body of a successful GET. */
  datatype Snapshot = Snapshot(totalVisitors: int, todayVisitors: int, onlineNow: int,
                               photosEdited: int, countries: int, timestamp: int)

  datatype PostReply = Edited(photosEdited: int) | InvalidAction | ServerError

  /** The request body: one whose reading throws (malformed JSON, or
      `null`, whose `action` cannot be read), or the `action` field of what
      was parsed (a missing field reads as empty). */
  datatype Body = Malformed | Parsed(action: string)

  /** The module-level `visitorStats` record. */
  class Stats {
    var totalVisitors: int
    var todayVisitors: int
    var onlineNow: int
    var photosEdited: int
    var countries: int
    var lastReset: string
    var visitors: set<string>
    var onlineUsers: map<string, int>

    function CountersOf(): Counters
      reads this
    {
      Counters(totalVisitors, todayVisitors, onlineNow, photosEdited, countries, lastReset)
    }

    /** The seeded record at server start; the day is read by the host. */
    constructor(today: string)
      ensures CountersOf() == Counters(1247, 23, 1, 3456, 67, today)
      ensures visitors == {} && onlineUsers == map[]
    {
      totalVisitors, todayVisitors, onlineNow, photosEdited, countries := 1247, 23, 1, 3456, 67;
      lastReset := today;
      visitors := {};
      onlineUsers := map[];
    }

    /** `cleanupOnlineUsers`: deletes, one key at a time, every visit older
        than five minutes before `now`. */
    method CleanupOnlineUsers(now: int)
      modifies this
      ensures onlineUsers == Live(old(onlineUsers), now - FiveMinutes)
      ensures CountersOf() == old(CountersOf()) && visitors == old(visitors)
    {
      var cutoff := now - FiveMinutes;
      ghost var start := onlineUsers;
      var pending := onlineUsers.Keys;
      while pending != {}
        invariant pending <= start.Keys
        invariant onlineUsers == map k | k in start && (k in pending || start[k] >= cutoff) :: start[k]
        invariant CountersOf() == old(CountersOf()) && visitors == old(visitors)
        decreases |pending|
      {
        var key :| key in pending;
        if onlineUsers[key] < cutoff {
          onlineUsers := map k | k in onlineUsers && k != key :: onlineUsers[k];
        }
        pending := pending - {key};
      }
    }

    /** `checkDailyReset`. */
    method CheckDailyReset(today: string)
      modifies this
      ensures old(lastReset) != today ==> CountersOf() == old(CountersOf()).(todayVisitors := 0, lastReset := today)
      ensures old(lastReset) == today ==> CountersOf() == old(CountersOf())
      ensures visitors == old(visitors) && onlineUsers == old(onlineUsers)
    {
      if lastReset != today {
        todayVisitors := 0;
        lastReset := today;
      }
    }

    /** `GET`: `today`, `cleanupTime` and `now` are the clock reads, `r1` and
        `r2` the random draws. */
    method Get(forwarded: string, requestIp: string, userAgent: string, today: string,
               cleanupTime: int, now: int, r1: real, r2: real) returns (reply: Snapshot)
      requires 0.0 <= r2 < 1.0
      modifies this
      ensures var id := HashOf(ClientIp(forwarded, requestIp), ClientAgent(userAgent));
        var isNew := id !in old(visitors);
        var dayStart := if old(lastReset) != today then 0 else old(todayVisitors);
        && visitors == old(visitors) + {id}
        && totalVisitors == old(totalVisitors) + (if isNew then 1 else 0)
        && todayVisitors == dayStart + (if isNew then 1 else 0)
        && lastReset == today
        && onlineUsers == Live(old(onlineUsers), cleanupTime - FiveMinutes)[id := now]
        && onlineUsers[id] == now
        && onlineNow == |onlineUsers.Keys|
        && photosEdited == old(photosEdited) + Activity(r1, r2)
        && countries == old(countries)
      ensures reply == Snapshot(totalVisitors, todayVisitors, onlineNow, photosEdited, countries, now)
    {
      var ip := ClientIp(forwarded, requestIp);
      var agent := ClientAgent(userAgent);
      CheckDailyReset(today);
      CleanupOnlineUsers(cleanupTime);
      var id := HashVisitor(ip, agent);
      if id !in visitors {
        visitors := visitors + {id};
        totalVisitors := totalVisitors + 1;
        todayVisitors := todayVisitors + 1;
      }
      onlineUsers := onlineUsers[id := now];
      onlineNow := |onlineUsers.Keys|;
      if r1 < 0.1 {
        photosEdited := photosEdited + (r2 * 3.0).Floor + 1;
      }
      reply := Snapshot(totalVisitors, todayVisitors, onlineNow, photosEdited, countries, now);
    }

    /** `POST`: counts an edited photo; any other action is refused. */
    method Post(body: Body) returns (reply: PostReply)
      modifies this
      ensures body == Parsed("photo_edited") ==>
        photosEdited == old(photosEdited) + 1 && reply == Edited(photosEdited)
      ensures body != Parsed("photo_edited") ==> photosEdited == old(photosEdited)
      ensures body.Parsed? && body.action != "photo_edited" ==> reply == InvalidAction
      ensures body.Malformed? ==> reply == ServerError
      ensures CountersOf().(photosEdited := 0) == old(CountersOf()).(photosEdited := 0)
      ensures visitors == old(visitors) && onlineUsers == old(onlineUsers)
    {
      if body.Malformed? {
        return ServerError;
      }
      if body.action == "photo_edited" {
        photosEdited := photosEdited + 1;
        return Edited(photosEdited);
      }
      return InvalidAction;
    }
  }
}
