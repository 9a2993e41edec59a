/** The shared limiter: one bucket per client address behind a mutex, the choice
    of the address, and the threads that stamp the time before they take the lock. */
module RateLimiting {
  import opened Text
  import opened TokenBucket

  datatype IpAddr = V4(bits: nat) | V6(bits: nat)

  const UNSPECIFIED: IpAddr := V4(0)

  datatype Arrival = Arrival(ip: IpAddr, now: real)

  datatype Served = Served(arrival: Arrival, admitted: bool)

  datatype Response = Next | TooManyRequests

  type Buckets = map<IpAddr, Bucket>

  function Slot(buckets: Buckets, ip: IpAddr): Option<Bucket> {
    if ip in buckets then Some(buckets[ip]) else None
  }

  /** The stamps of one address's critical sections, in lock order. */
  function TimesOf(log: seq<Served>, ip: IpAddr): seq<real> {
    if log == [] then []
    else
      var last := log[|log| - 1];
      TimesOf(log[..|log| - 1], ip) + if last.arrival.ip == ip then [last.arrival.now] else []
  }

  /** The answers that address got. */
  function AnswersOf(log: seq<Served>, ip: IpAddr): seq<bool> {
    if log == [] then []
    else
      var last := log[|log| - 1];
      AnswersOf(log[..|log| - 1], ip) + if last.arrival.ip == ip then [last.admitted] else []
  }

  lemma LogSnoc(log: seq<Served>, s: Served, ip: IpAddr)
    ensures TimesOf(log + [s], ip) == TimesOf(log, ip) + if s.arrival.ip == ip then [s.arrival.now] else []
    ensures AnswersOf(log + [s], ip) == AnswersOf(log, ip) + if s.arrival.ip == ip then [s.admitted] else []
  {
    assert (log + [s])[..|log|] == log;
  }

  /** Each address has been served as if the limiter were its own: its bucket and
      its answers are those of its requests replayed alone. */
  ghost predicate ServedAlone(lim: Limits, buckets: Buckets, log: seq<Served>) {
    forall ip ::
      && Slot(buckets, ip) == After(lim, TimesOf(log, ip))
      && AnswersOf(log, ip) == Decisions(lim, TimesOf(log, ip))
  }

  lemma ServedAloneStep(lim: Limits, buckets: Buckets, log: seq<Served>, a: Arrival)
    requires ServedAlone(lim, buckets, log)
    ensures var v := Check(lim, Slot(buckets, a.ip), a.now);
            ServedAlone(lim, buckets[a.ip := v.bucket], log + [Served(a, v.admitted)])
  {
    var v := Check(lim, Slot(buckets, a.ip), a.now);
    var buckets', log' := buckets[a.ip := v.bucket], log + [Served(a, v.admitted)];
    hide After, Decisions, Check;
    forall ip
      ensures Slot(buckets', ip) == After(lim, TimesOf(log', ip))
      ensures AnswersOf(log', ip) == Decisions(lim, TimesOf(log', ip))
    {
      LogSnoc(log, Served(a, v.admitted), ip);
      if ip == a.ip {
        Snoc(lim, TimesOf(log, ip), a.now);
      } else {
        assert TimesOf(log', ip) == TimesOf(log, ip);
        assert AnswersOf(log', ip) == AnswersOf(log, ip);
      }
    }
  }

  // ---- The client address -----------------------------------------------------

  /** `HeaderValue::to_str` accepts visible ASCII, space and tab. */
  predicate IsHeaderText(value: string) {
    forall k | 0 <= k < |value| :: ' ' <= value[k] <= '~' || value[k] == '\t'
  }

  /** The pieces that parse as an address, in order. */
  function ParsedAddresses(parse: string -> Option<IpAddr>, pieces: seq<string>): seq<IpAddr> {
    if pieces == [] then []
    else
      var n := |pieces| - 1;
      var ip := parse(Trim(pieces[n]));
      ParsedAddresses(parse, pieces[..n]) + if ip.Some? then [ip.value] else []
  }

  /** `lines` are the X-Forwarded-For lines of the request in order. `HeaderMap::get`
      gives the first one, and the others are never read. */
  function ClientIp(parse: string -> Option<IpAddr>, lines: seq<string>): Option<IpAddr> {
    if lines == [] || !IsHeaderText(lines[0]) then None
    else
      var ips := ParsedAddresses(parse, Split(lines[0], ','));
      if ips == [] then None else Some(ips[|ips| - 1])
  }

  /** The address a request is counted under. */
  function ClientKey(
    trust: bool, peer: Option<IpAddr>, parse: string -> Option<IpAddr>, lines: seq<string>): IpAddr
  {
    var peerIp := peer.GetOr(UNSPECIFIED);
    if trust then ClientIp(parse, lines).GetOr(peerIp) else peerIp
  }

  lemma {:induction false} ParsedAddressesSnoc(
    parse: string -> Option<IpAddr>, pieces: seq<string>, piece: string)
    ensures var ip := parse(Trim(piece));
            ParsedAddresses(parse, pieces + [piece])
            == ParsedAddresses(parse, pieces) + if ip.Some? then [ip.value] else []
  {
    assert (pieces + [piece])[..|pieces|] == pieces;
  }

  /** With forwarding trusted, the address appended last to the first line is the key,
      whatever stands before it and whatever lines follow; an appended piece that is no
      address changes nothing. */
  lemma {:induction false} LastAppendedAddressWins(
    peer: Option<IpAddr>, parse: string -> Option<IpAddr>, before: string, appended: string, further: seq<string>)
    requires ',' !in appended && IsHeaderText(before) && IsHeaderText(appended)
    ensures var whole := [before + "," + appended] + further;
            match parse(Trim(appended))
            case Some(ip) =>
              && ClientKey(true, peer, parse, whole) == ip
              && ClientKey(true, peer, parse, [appended] + further) == ip
            case None =>
              ClientKey(true, peer, parse, whole) == ClientKey(true, peer, parse, [before] + further)
  {
    hide ParsedAddresses, Trim, Split, IsHeaderText;
    AppendedHeader(before, appended);
    ParsedAddressesSnoc(parse, Split(before, ','), appended);
    ParsedAddressesSnoc(parse, [], appended);
    assert [] + [appended] == [appended];
    NothingParsed(parse);
  }

  /** The characters that addresses are written with. */
  predicate IsAddressText(s: string) {
    && s != []
    && forall k | 0 <= k < |s| ::
         '0' <= s[k] <= '9' || 'a' <= s[k] <= 'f' || 'A' <= s[k] <= 'F' || s[k] == '.' || s[k] == ':'
  }

  /** What proxies write: after any text of visible ASCII, spaces and tabs, a comma and
      perhaps a space, the address they append is the key. */
  lemma {:induction false} AddressAfterComma(
    peer: Option<IpAddr>, parse: string -> Option<IpAddr>, before: string, address: string, further: seq<string>)
    requires forall k | 0 <= k < |before| :: ' ' <= before[k] <= '~' || before[k] == '\t'
    requires IsAddressText(address) && parse(address).Some?
    ensures ClientKey(true, peer, parse, [before + "," + address] + further) == parse(address).value
    ensures ClientKey(true, peer, parse, [before + ", " + address] + further) == parse(address).value
    ensures ClientKey(true, peer, parse, [address] + further) == parse(address).value
  {
    hide ClientKey, Trim;
    AddressTrims(address);
    LastAppendedAddressWins(peer, parse, before, address, further);
    LastAppendedAddressWins(peer, parse, before, " " + address, further);
    assert before + ", " + address == before + "," + (" " + address);
  }

  lemma {:induction false} AddressTrims(address: string)
    requires IsAddressText(address)
    ensures Trim(address) == Trim(" " + address) == address
    ensures ',' !in address && ',' !in " " + address && IsHeaderText(address) && IsHeaderText(" " + address)
  {
    hide Trim;
    forall k | 0 <= k < |address| ensures '!' <= address[k] <= '~' && address[k] != ',' {
    }
    TrimAscii("", address, "");
    TrimAscii(" ", address, "");
    assert "" + address + "" == address && " " + address + "" == " " + address;
  }

  /** A first line with any other character counts as no header at all. */
  lemma {:induction false} OtherTextIsNoHeader(
    peer: Option<IpAddr>, parse: string -> Option<IpAddr>, lines: seq<string>, k: nat)
    requires lines != [] && k < |lines[0]|
    requires (lines[0][k] < ' ' && lines[0][k] != '\t') || lines[0][k] > '~'
    ensures ClientKey(true, peer, parse, lines) == if peer.Some? then peer.value else V4(0)
  {
  }

  /** One piece of a list that reads as an address. */
  predicate IsAddress(parse: string -> Option<IpAddr>, piece: string) {
    ',' !in piece && IsHeaderText(piece) && parse(Trim(piece)).Some?
  }

  /** The parser reads at least two addresses. */
  ghost predicate TellsApart(parse: string -> Option<IpAddr>) {
    exists a, b :: IsAddress(parse, a) && IsAddress(parse, b) && parse(Trim(a)) != parse(Trim(b))
  }

  /** An address appended as a line of its own does not take the place of the one before:
      with the lines 6.6.6.6 and 203.0.113.7 the key is 6.6.6.6, although the same list
      on one line gives 203.0.113.7. */
  lemma {:induction false} SecondLineIsIgnored(
    peer: Option<IpAddr>, parse: string -> Option<IpAddr>, first: string, second: string)
    requires IsAddress(parse, first) && IsAddress(parse, second)
    ensures ClientKey(true, peer, parse, [first, second]) == parse(Trim(first)).value
    ensures ClientKey(true, peer, parse, [first + "," + second]) == parse(Trim(second)).value
  {
    hide ClientKey, Trim;
    LastAppendedAddressWins(peer, parse, first, first, [second]);
    LastAppendedAddressWins(peer, parse, first, second, []);
    assert [first] + [second] == [first, second];
    assert [first + "," + second] + [] == [first + "," + second];
  }

  lemma {:induction false} FurtherLine(
    peer: Option<IpAddr>, parse: string -> Option<IpAddr>, lines: seq<string>, line: string)
    requires IsAddress(parse, line)
    ensures ClientKey(true, peer, parse, lines + [line])
            == if lines == [] then parse(Trim(line)).value else ClientKey(true, peer, parse, lines)
  {
    hide ParsedAddresses, Trim, Split;
    if lines == [] {
      LastAppendedAddressWins(peer, parse, line, line, []);
      assert [line] + [] == lines + [line];
    } else {
      assert (lines + [line])[0] == lines[0];
    }
  }

  /** Exactly when a proxy may append by adding a line: whatever address it adds becomes
      the key if and only if the request had no such line before. */
  lemma {:induction false} AddedLineWinsIffFirst(
    peer: Option<IpAddr>, parse: string -> Option<IpAddr>, lines: seq<string>)
    requires TellsApart(parse)
    ensures (forall line | IsAddress(parse, line) ::
               ClientKey(true, peer, parse, lines + [line]) == parse(Trim(line)).value)
            <==> lines == []
  {
    hide ClientKey, Trim, IsHeaderText;
    forall line | IsAddress(parse, line)
      ensures ClientKey(true, peer, parse, lines + [line])
              == if lines == [] then parse(Trim(line)).value else ClientKey(true, peer, parse, lines)
    {
      FurtherLine(peer, parse, lines, line);
    }
    var a, b :| IsAddress(parse, a) && IsAddress(parse, b) && parse(Trim(a)) != parse(Trim(b));
  }

  /** The header counts only when forwarding is trusted, and only if its first line is
      text with a piece that is an address; otherwise the key is the peer, or the unspecified
      address when there is none. */
  lemma {:induction false} OtherwiseThePeer(
    trust: bool, peer: Option<IpAddr>, parse: string -> Option<IpAddr>, lines: seq<string>)
    requires trust && lines != [] && IsHeaderText(lines[0]) ==>
               forall piece | piece in Split(lines[0], ',') :: parse(Trim(piece)).None?
    ensures ClientKey(trust, peer, parse, lines) == if peer.Some? then peer.value else V4(0)
  {
    if trust && lines != [] && IsHeaderText(lines[0]) {
      NoneParsed(parse, Split(lines[0], ','));
    }
  }

  lemma {:induction false} NoneParsed(parse: string -> Option<IpAddr>, pieces: seq<string>)
    requires forall piece | piece in pieces :: parse(Trim(piece)).None?
    ensures ParsedAddresses(parse, pieces) == []
  {
    if pieces == [] {
    } else {
      NoneParsed(parse, pieces[..|pieces| - 1]);
    }
  }

  lemma {:induction false} AppendedHeader(before: string, appended: string)
    requires ',' !in appended && IsHeaderText(before) && IsHeaderText(appended)
    ensures IsHeaderText(before + "," + appended)
    ensures Split(before + "," + appended, ',') == Split(before, ',') + [appended]
    ensures Split(appended, ',') == [appended]
  {
    SplitAppend(before, ',', appended);
    assert before + [','] + appended == before + "," + appended;
  }

  lemma {:induction false} NothingParsed(parse: string -> Option<IpAddr>)
    ensures ParsedAddresses(parse, []) == []
  {
  }

  // ---- The limiter ------------------------------------------------------------

  class RateLimiter {
    const limits: Limits
    var inner: Buckets
    var trustForwardedFor: bool
    var enabled: bool
    /** Every critical section so far. */
    ghost var log: seq<Served>

    ghost predicate Valid()
      reads this
    {
      ServedAlone(limits, inner, log)
    }

    constructor (ratePerSec: real, burst: real)
      ensures Valid() && log == [] && inner == map[]
      ensures limits == Limits(ratePerSec, burst) && !trustForwardedFor && enabled
    {
      limits := Limits(ratePerSec, burst);
      inner := map[];
      trustForwardedFor := false;
      enabled := true;
      log := [];
    }

    method TrustForwardedFor(trust: bool)
      modifies this`trustForwardedFor
      ensures trustForwardedFor == trust
    {
      trustForwardedFor := trust;
    }

    method SetEnabled(on: bool)
      modifies this`enabled
      ensures enabled == on
    {
      enabled := on;
    }

    /** The critical section of a request stamped `now`. The answer is the one the
        address would get from a limiter of its own, and no other bucket moves. */
    method CheckAddress(ip: IpAddr, now: real) returns (admitted: bool)
      requires Valid()
      modifies this`inner, this`log
      ensures Valid()
      ensures log == old(log) + [Served(Arrival(ip, now), admitted)]
      ensures Decisions(limits, old(TimesOf(log, ip)) + [now]) == old(AnswersOf(log, ip)) + [admitted]
      ensures inner.Keys == old(inner).Keys + {ip}
      ensures forall other | other in old(inner) && other != ip :: inner[other] == old(inner)[other]
    {
      hide After, Decisions, TimesOf, AnswersOf, Supply;
      ServedAloneStep(limits, inner, log, Arrival(ip, now));
      Snoc(limits, TimesOf(log, ip), now);
      if ip !in inner {
        inner := inner[ip := Bucket(limits.burst, now)];
      }
      var bucket := inner[ip];
      var elapsed := Elapsed(now, bucket.last);
      var tokens := Min(bucket.tokens + Supply(limits, elapsed), limits.burst);
      admitted := tokens >= 1.0;
      if admitted {
        tokens := tokens - 1.0;
      }
      inner := inner[ip := Bucket(tokens, now)];
      log := log + [Served(Arrival(ip, now), admitted)];
    }

    /** The middleware: switched off it passes everything and touches nothing. */
    method Handle(
      peer: Option<IpAddr>, parse: string -> Option<IpAddr>, lines: seq<string>, now: real)
      returns (response: Response)
      requires Valid()
      modifies this`inner, this`log
      ensures Valid()
      ensures !enabled ==> response == Next && inner == old(inner) && log == old(log)
      ensures enabled ==>
                var key := ClientKey(trustForwardedFor, peer, parse, lines);
                && log == old(log) + [Served(Arrival(key, now), response.Next?)]
                && Decisions(limits, old(TimesOf(log, key)) + [now])
                   == old(AnswersOf(log, key)) + [response.Next?]
    {
      if !enabled {
        return Next;
      }
      var admitted := CheckAddress(ClientKey(trustForwardedFor, peer, parse, lines), now);
      response := if admitted then Next else TooManyRequests;
    }
  }

  // ---- Threads ----------------------------------------------------------------

  /** The limiter under concurrency: requests stamped but not yet in the critical
      section wait in any order. */
  datatype System = System(clock: real, waiting: multiset<Arrival>, buckets: Buckets, log: seq<Served>)

  datatype Action =
    | Advance(dt: real)          // time passes
    | Stamp(ip: IpAddr)          // a thread reads the clock
    | Enter(arrival: Arrival)    // a waiting thread takes the lock

  /** One step; an action that is not possible in `s` changes nothing. */
  function Step(lim: Limits, s: System, a: Action): System {
    match a
    case Advance(dt) => if dt >= 0.0 then s.(clock := s.clock + dt) else s
    case Stamp(ip) => s.(waiting := s.waiting + multiset{Arrival(ip, s.clock)})
    case Enter(arrival) =>
      if arrival !in s.waiting then s
      else
        var v := Check(lim, Slot(s.buckets, arrival.ip), arrival.now);
        s.(waiting := s.waiting - multiset{arrival},
           buckets := s.buckets[arrival.ip := v.bucket],
           log := s.log + [Served(arrival, v.admitted)])
  }

  function Execute(lim: Limits, actions: seq<Action>): System {
    if actions == [] then System(0.0, multiset{}, map[], [])
    else Step(lim, Execute(lim, actions[..|actions| - 1]), actions[|actions| - 1])
  }

  /** IP independence: in every interleaving, the answers an address gets are those
      of its own requests replayed alone. */
  lemma {:induction false} IpIndependence(lim: Limits, actions: seq<Action>)
    ensures ServedAlone(lim, Execute(lim, actions).buckets, Execute(lim, actions).log)
  {
    if actions == [] {
    } else {
      var s := Execute(lim, actions[..|actions| - 1]);
      IpIndependence(lim, actions[..|actions| - 1]);
      var a := actions[|actions| - 1];
      if a.Enter? && a.arrival in s.waiting {
        ServedAloneStep(lim, s.buckets, s.log, a.arrival);
      }
    }
  }

  /** In every interleaving of the threads, consecutive critical sections i..j of an
      address admit at most the burst plus the rate over last stamp minus first stamp
      plus the total of the backward steps between them. */
  lemma {:induction false} AdmissionBoundUnderRaces(lim: Limits, actions: seq<Action>, ip: IpAddr, i: nat, j: nat)
    requires Sensible(lim)
    requires i <= j < |TimesOf(Execute(lim, actions).log, ip)|
    ensures var log := Execute(lim, actions).log;
            var times, answers := TimesOf(log, ip), AnswersOf(log, ip);
            && |answers| == |times|
            && Admitted(answers[i..j + 1]) as real
               <= lim.burst + Supply(lim, times[j] - times[i] + Backward(times[i..j + 1]))
  {
    hide After, Decisions, Execute, TimesOf, AnswersOf, Backward, Admitted, Supply;
    IpIndependence(lim, actions);
    RaceWindowBound(lim, TimesOf(Execute(lim, actions).log, ip), i, j);
  }

  /** At no time are two stamped requests waiting. */
  ghost predicate OneAtATime(lim: Limits, actions: seq<Action>) {
    forall k | 0 <= k <= |actions| :: |Execute(lim, actions[..k]).waiting| <= 1
  }

  ghost predicate Behind(log: seq<Served>, t: real) {
    forall k | 0 <= k < |log| :: log[k].arrival.now <= t
  }

  lemma TimesBehind(log: seq<Served>, ip: IpAddr, t: real)
    requires Behind(log, t)
    ensures forall k | 0 <= k < |TimesOf(log, ip)| :: TimesOf(log, ip)[k] <= t
  {
    if log == [] {
    } else {
      TimesBehind(log[..|log| - 1], ip, t);
    }
  }

  /** Everything served is stamped before everything waiting, and in order. */
  ghost predicate SerialSoFar(s: System, ip: IpAddr) {
    && NonDecreasing(TimesOf(s.log, ip))
    && Behind(s.log, s.clock)
    && forall w | w in s.waiting :: w.now <= s.clock && Behind(s.log, w.now)
  }

  lemma {:induction false} SerialStep(lim: Limits, s: System, a: Action, ip: IpAddr)
    requires SerialSoFar(s, ip) && |s.waiting| <= 1
    ensures SerialSoFar(Step(lim, s, a), ip)
  {
    hide Check, TimesOf, NonDecreasing;
    if a.Enter? && a.arrival in s.waiting {
      EnterKeepsOrder(lim, s, a.arrival, ip);
    }
  }

  lemma {:induction false} EnterKeepsOrder(lim: Limits, s: System, a: Arrival, ip: IpAddr)
    requires a in s.waiting && |s.waiting| <= 1
    requires NonDecreasing(TimesOf(s.log, ip)) && Behind(s.log, a.now)
    ensures var s' := Step(lim, s, Enter(a));
            s'.waiting == multiset{} && NonDecreasing(TimesOf(s'.log, ip))
  {
    hide Check;
    var s' := Step(lim, s, Enter(a));
    assert s'.waiting == multiset{} by {
      assert |s'.waiting| == |s.waiting| - 1 == 0;
    }
    var served := s'.log[|s.log|];
    LogSnoc(s.log, served, ip);
    TimesBehind(s.log, ip, a.now);
    var times := TimesOf(s.log, ip);
    if a.ip == ip {
      assert (times + [a.now])[..|times|] == times;
    } else {
      assert times + [] == times;
    }
  }

  /** Without overlap between stamping and locking the stamps are in order, so all
      that is said of ordered traces applies. */
  lemma {:induction false} SerialStampsAreOrdered(lim: Limits, actions: seq<Action>, ip: IpAddr)
    requires OneAtATime(lim, actions)
    ensures NonDecreasing(TimesOf(Execute(lim, actions).log, ip))
  {
    SerialRun(lim, actions, ip);
  }

  lemma {:induction false} SerialRun(lim: Limits, actions: seq<Action>, ip: IpAddr)
    requires OneAtATime(lim, actions)
    ensures SerialSoFar(Execute(lim, actions), ip)
  {
    hide SerialSoFar, Step;
    if actions != [] {
      var n := |actions| - 1;
      var before := actions[..n];
      forall k | 0 <= k <= n ensures |Execute(lim, before[..k]).waiting| <= 1 {
        assert before[..k] == actions[..k];
      }
      SerialRun(lim, before, ip);
      assert before[..n] == before;
      SerialStep(lim, Execute(lim, before), actions[n], ip);
    } else {
      SerialStart(ip);
    }
  }

  lemma {:induction false} SerialStart(ip: IpAddr)
    ensures SerialSoFar(System(0.0, multiset{}, map[], []), ip)
  {
  }

  /** The router's limiter admits at most ten requests of an address in sixty seconds; when threads
      race, those seconds include the backward steps. */
  lemma AtMostTenPerMinute(actions: seq<Action>, ip: IpAddr, i: nat, j: nat)
    requires i <= j < |TimesOf(Execute(ROUTER_LIMITS, actions).log, ip)|
    requires var times := TimesOf(Execute(ROUTER_LIMITS, actions).log, ip);
             times[j] - times[i] + Backward(times[i..j + 1]) <= 60.0
    ensures var answers := AnswersOf(Execute(ROUTER_LIMITS, actions).log, ip);
            |answers| > j && Admitted(answers[i..j + 1]) <= 10
  {
    hide Execute, TimesOf, AnswersOf, Backward, Admitted;
    AdmissionBoundUnderRaces(ROUTER_LIMITS, actions, ip, i, j);
    var times := TimesOf(Execute(ROUTER_LIMITS, actions).log, ip);
    SupplyMonotone(ROUTER_LIMITS, times[j] - times[i] + Backward(times[i..j + 1]), 60.0);
  }

  lemma {:induction false} AtMostTenPerMinuteWithoutOverlap(actions: seq<Action>, ip: IpAddr, i: nat, j: nat)
    requires OneAtATime(ROUTER_LIMITS, actions)
    requires i <= j < |TimesOf(Execute(ROUTER_LIMITS, actions).log, ip)|
    requires var times := TimesOf(Execute(ROUTER_LIMITS, actions).log, ip); times[j] - times[i] <= 60.0
    ensures var answers := AnswersOf(Execute(ROUTER_LIMITS, actions).log, ip);
            |answers| > j && Admitted(answers[i..j + 1]) <= 10
  {
    hide Execute, TimesOf, AnswersOf, NonDecreasing, Backward;
    var times := TimesOf(Execute(ROUTER_LIMITS, actions).log, ip);
    SerialStampsAreOrdered(ROUTER_LIMITS, actions, ip);
    NonDecreasingPrefix(times, i + 1);
    NonDecreasingPrefix(times, j + 1);
    OrderedHasNoBackward(times[..i + 1]);
    OrderedHasNoBackward(times[..j + 1]);
    BackwardSplit(times, i, j);
    AtMostTenPerMinute(actions, ip, i, j);
  }
}
