/** The layer that keeps OpenTelemetry's current context in step with the open
    tracing spans of a thread: a stack of guards, each holding the context it replaced. */
module OtelContext {
  import opened Text

  datatype SpanContext = SpanContext(traceId: nat, spanId: nat, sampled: bool, remote: bool)

  /** A context: its span and whatever else it carries. */
  datatype Context = Context(span: SpanContext, values: nat)

  /** What tracing-opentelemetry keeps with a span. */
  datatype OtelData = OtelData(traceId: Option<nat>, spanId: Option<nat>, parent: Context)

  /** A span of the registry, with or without that data. */
  datatype SpanInfo = Bare | Traced(data: OtelData)

  datatype Thread = Thread(current: Context, guards: seq<Context>)

  /** Entering records what the registry knows of the span at that moment: nothing if
      it is not found. */
  datatype Event = Enter(id: nat, info: Option<SpanInfo>) | Exit(id: nat)

  /** The context a span activates: its own ids, or its parent's where they are missing. */
  function ContextFor(d: OtelData): Context {
    d.parent.(span := SpanContext(
      d.traceId.GetOr(d.parent.span.traceId), d.spanId.GetOr(d.parent.span.spanId), true, false))
  }

  function OnEnter(t: Thread, info: Option<SpanInfo>): Thread {
    if info.None? then t
    else if info.value.Bare? then t.(guards := t.guards + [t.current])
    else Thread(ContextFor(info.value.data), t.guards + [t.current])
  }

  /** Popping drops the guard, which puts the context back that it replaced. */
  function OnExit(t: Thread): Thread {
    if t.guards == [] then t
    else Thread(t.guards[|t.guards| - 1], t.guards[..|t.guards| - 1])
  }

  class OtelContextLayer {
    var current: Context
    var guards: seq<Context>

    ghost function State(): Thread
      reads this
    {
      Thread(current, guards)
    }

    constructor (current: Context)
      ensures State() == Thread(current, [])
    {
      this.current := current;
      guards := [];
    }

    /** Makes a context current and returns the guard that undoes it. */
    method Attach(cx: Context) returns (guard: Context)
      modifies this`current
      ensures current == cx && guard == old(current)
    {
      guard := current;
      current := cx;
    }

    method Enter(info: Option<SpanInfo>)
      modifies this
      ensures State() == OnEnter(old(State()), info)
      ensures info == None ==> current == old(current) && guards == old(guards)
      ensures info != None ==> guards == old(guards) + [old(current)]
      ensures info == Some(Bare) ==> current == old(current)
      ensures info.Some? && info.value.Traced? ==>
                var d := info.value.data;
                && current.span.traceId == (if d.traceId == None then d.parent.span.traceId else d.traceId.value)
                && current.span.spanId == (if d.spanId == None then d.parent.span.spanId else d.spanId.value)
                && current.span.sampled && !current.span.remote && current.values == d.parent.values
    {
      if info.None? {
        return;
      }
      if info.value.Bare? {
        var guard := Attach(current);
        guards := guards + [guard];
        return;
      }
      var data := info.value.data;
      var traceId := if data.traceId.Some? then data.traceId.value else data.parent.span.traceId;
      var spanId := if data.spanId.Some? then data.spanId.value else data.parent.span.spanId;
      var guard := Attach(Context(SpanContext(traceId, spanId, true, false), data.parent.values));
      guards := guards + [guard];
    }

    method Exit()
      modifies this
      ensures State() == OnExit(old(State()))
      ensures old(guards) == [] ==> guards == [] && current == old(current)
      ensures old(guards) != [] ==> guards + [current] == old(guards)
    {
      if guards != [] {
        current := guards[|guards| - 1];
        guards := guards[..|guards| - 1];
      }
    }
  }

  // ---- One thread -------------------------------------------------------------------

  function OnEvent(t: Thread, e: Event): Thread {
    if e.Enter? then OnEnter(t, e.info) else OnExit(t)
  }

  function Run(start: Thread, trace: seq<Event>): Thread {
    if trace == [] then start
    else OnEvent(Run(start, trace[..|trace| - 1]), trace[|trace| - 1])
  }

  datatype Entered = Entered(id: nat, info: Option<SpanInfo>)

  /** Entering opens a span; an exit must match the span entered last. */
  function OpenAfter(open: seq<Entered>, e: Event): Option<seq<Entered>> {
    if e.Enter? then Some(open + [Entered(e.id, e.info)])
    else if open != [] && open[|open| - 1].id == e.id then Some(open[..|open| - 1])
    else None
  }

  /** The spans that are open after a trace, outermost first; `None` when it is not well nested. */
  function Open(trace: seq<Event>): Option<seq<Entered>> {
    if trace == [] then Some([])
    else
      var before := Open(trace[..|trace| - 1]);
      if before.None? then None else OpenAfter(before.value, trace[|trace| - 1])
  }

  predicate WellNested(trace: seq<Event>) {
    Open(trace).Some?
  }

  lemma NoEvents(start: Thread)
    ensures Run(start, []) == start && Open([]) == Some([])
  {
  }

  lemma TraceSnoc(start: Thread, trace: seq<Event>, e: Event)
    ensures Run(start, trace + [e]) == OnEvent(Run(start, trace), e)
    ensures Open(trace).Some? ==> Open(trace + [e]) == OpenAfter(Open(trace).value, e)
  {
    assert (trace + [e])[..|trace|] == trace;
  }

  /** The context of the innermost open span that has one, else the original. */
  function Innermost(base: Context, open: seq<Entered>): Context {
    if open == [] then base
    else
      var last := open[|open| - 1];
      if last.info.Some? && last.info.value.Traced? then ContextFor(last.info.value.data)
      else Innermost(base, open[..|open| - 1])
  }

  /** What the guards hold: for each open span that was found, the context it was entered in. */
  function Saved(base: Context, open: seq<Entered>): seq<Context> {
    if open == [] then []
    else
      var init := open[..|open| - 1];
      Saved(base, init) + if open[|open| - 1].info.Some? then [Innermost(base, init)] else []
  }

  function FoundCount(open: seq<Entered>): nat {
    if open == [] then 0
    else FoundCount(open[..|open| - 1]) + if open[|open| - 1].info.Some? then 1 else 0
  }

  predicate AllFound(trace: seq<Event>) {
    forall k | 0 <= k < |trace| && trace[k].Enter? :: trace[k].info.Some?
  }

  /** No span that was not found is exited while a found one is open. */
  predicate Clean(trace: seq<Event>)
    requires WellNested(trace)
  {
    trace != [] ==>
      var before := trace[..|trace| - 1];
      var open := Open(before).value;
      && Clean(before)
      && (trace[|trace| - 1].Exit? && open[|open| - 1].info.None? ==> FoundCount(open) == 0)
  }

  lemma {:induction false} SavedCount(base: Context, open: seq<Entered>)
    ensures |Saved(base, open)| == FoundCount(open)
  {
    if open == [] {
    } else {
      SavedCount(base, open[..|open| - 1]);
    }
  }

  lemma PushedOpen(base: Context, open: seq<Entered>, e: Entered)
    ensures Innermost(base, open + [e]) ==
              if e.info.Some? && e.info.value.Traced? then ContextFor(e.info.value.data) else Innermost(base, open)
    ensures Saved(base, open + [e]) == Saved(base, open) + if e.info.Some? then [Innermost(base, open)] else []
    ensures FoundCount(open + [e]) == FoundCount(open) + if e.info.Some? then 1 else 0
  {
    assert (open + [e])[..|open|] == open;
  }

  /** The state of a thread that is in step with its open spans. */
  function InStepState(start: Thread, open: seq<Entered>): Thread {
    Thread(Innermost(start.current, open), start.guards + Saved(start.current, open))
  }

  lemma {:induction false} EventKeepsStep(start: Thread, open: seq<Entered>, e: Event)
    requires OpenAfter(open, e).Some?
    requires e.Exit? && open[|open| - 1].info.None? ==> start.guards == [] && FoundCount(open) == 0
    ensures OnEvent(InStepState(start, open), e) == InStepState(start, OpenAfter(open, e).value)
  {
    hide Innermost, Saved, FoundCount;
    var base := start.current;
    if e.Enter? {
      PushedOpen(base, open, Entered(e.id, e.info));
    } else {
      var rest, last := open[..|open| - 1], open[|open| - 1];
      assert open == rest + [last];
      PushedOpen(base, rest, last);
      if last.info.Some? {
        assert start.guards + Saved(base, open) == start.guards + Saved(base, rest) + [Innermost(base, rest)];
      } else {
        SavedCount(base, open);
      }
    }
  }

  /** The state of a thread after a clean trace, exactly: the current context is the
      innermost open span's, and the guards lead back through the enclosing ones. */
  lemma {:induction false} CleanRun(start: Thread, trace: seq<Event>)
    requires WellNested(trace) && Clean(trace)
    requires start.guards == [] || AllFound(trace)
    ensures Run(start, trace) == InStepState(start, Open(trace).value)
  {
    hide InStepState, OnEvent;
    if trace != [] {
      var before := trace[..|trace| - 1];
      CleanRun(start, before);
      if AllFound(trace) {
        AllFoundIsClean(before);
      }
      EventKeepsStep(start, Open(before).value, trace[|trace| - 1]);
    } else {
      NothingOpen(start);
    }
  }

  lemma {:induction false} NothingOpen(start: Thread)
    ensures InStepState(start, []) == start
  {
    assert start.guards + [] == start.guards;
  }

  lemma {:induction false} AllFoundIsClean(trace: seq<Event>)
    requires WellNested(trace) && AllFound(trace)
    ensures Clean(trace)
    ensures forall k | 0 <= k < |Open(trace).value| :: Open(trace).value[k].info.Some?
  {
    if trace == [] {
    } else {
      AllFoundIsClean(trace[..|trace| - 1]);
    }
  }

  lemma {:induction false} PrefixNested(trace: seq<Event>, k: nat)
    requires WellNested(trace) && k <= |trace|
    ensures WellNested(trace[..k])
  {
    if k < |trace| {
      PrefixNested(trace[..|trace| - 1], k);
      assert trace[..|trace| - 1][..k] == trace[..k];
    } else {
      assert trace[..k] == trace;
    }
  }

  lemma {:induction false} CurrentAfterTrace(start: Thread, trace: seq<Event>)
    requires WellNested(trace) && AllFound(trace)
    ensures Run(start, trace).current == Innermost(start.current, Open(trace).value)
    ensures |Run(start, trace).guards| == |start.guards| + |Open(trace).value|
    ensures Open(trace).value == [] ==> Run(start, trace) == start
  {
    AllFoundIsClean(trace);
    CleanRun(start, trace);
    SavedCount(start.current, Open(trace).value);
    AllCounted(Open(trace).value);
  }

  /** Stack discipline: when every entered span is found, then after every prefix of a
      well-nested trace the current context is that of the innermost open span, there is
      one more guard for each open span, and when none is open all is as at the start. */
  lemma {:induction false} CurrentIsInnermost(start: Thread, trace: seq<Event>, k: nat)
    requires WellNested(trace) && AllFound(trace) && k <= |trace|
    ensures WellNested(trace[..k])
    ensures var open, now := Open(trace[..k]).value, Run(start, trace[..k]);
            && now.current == Innermost(start.current, open)
            && |now.guards| == |start.guards| + |open|
            && (open == [] ==> now == start)
  {
    PrefixNested(trace, k);
    CurrentAfterTrace(start, trace[..k]);
  }

  lemma {:induction false} AllCounted(open: seq<Entered>)
    requires forall k | 0 <= k < |open| :: open[k].info.Some?
    ensures FoundCount(open) == |open|
  {
    if open == [] {
    } else {
      AllCounted(open[..|open| - 1]);
    }
  }

  /** The exit of a span that was not found pops the guard of an enclosing one. */
  lemma {:induction false} ForeignPop(base: Context, open: seq<Entered>)
    requires open != [] && open[|open| - 1].info.None? && FoundCount(open) > 0
    ensures |OnExit(InStepState(Thread(base, []), open)).guards| != FoundCount(open[..|open| - 1])
  {
    SavedCount(base, open);
  }

  /** As many guards as found open spans. */
  predicate InStep(base: Context, trace: seq<Event>) {
    Open(trace).Some? && |Run(Thread(base, []), trace).guards| == FoundCount(Open(trace).value)
  }

  /** The last event of a trace keeps step exactly when it is no foreign pop. */
  lemma {:induction false} LastEventInStep(base: Context, trace: seq<Event>)
    requires WellNested(trace) && trace != [] && Clean(trace[..|trace| - 1])
    ensures Clean(trace) <==> InStep(base, trace)
  {
    hide Innermost, Saved, FoundCount;
    var before := trace[..|trace| - 1];
    CleanRun(Thread(base, []), before);
    if Clean(trace) {
      CleanRun(Thread(base, []), trace);
      SavedCount(base, Open(trace).value);
    } else {
      ForeignPop(base, Open(before).value);
    }
  }

  /** Spans that are not found push no guard, yet their exit pops one. The guards keep
      step with the found open spans, after every prefix, exactly on clean traces. */
  lemma {:induction false} GuardsInStepIffClean(base: Context, trace: seq<Event>)
    requires WellNested(trace)
    ensures Clean(trace) <==> forall k | 0 <= k <= |trace| :: InStep(base, trace[..k])
  {
    hide InStep, Open;
    if trace == [] {
      assert trace[..0] == trace;
      NoEvents(Thread(base, []));
      NothingInStep(base);
    } else {
      var n := |trace| - 1;
      PrefixNested(trace, n);
      GuardsInStepIffClean(base, trace[..n]);
      forall k | 0 <= k <= n ensures trace[..n][..k] == trace[..k] {
      }
      assert trace[..n + 1] == trace;
      if Clean(trace[..n]) {
        LastEventInStep(base, trace);
      }
    }
  }

  lemma {:induction false} NothingInStep(base: Context)
    ensures InStep(base, [])
  {
  }

  /** Every span that is found when it is entered makes a context of its own current,
      one that differs from the context around it. */
  predicate EntriesChange(base: Context, trace: seq<Event>)
    requires WellNested(trace)
  {
    trace != [] ==>
      var before, e := trace[..|trace| - 1], trace[|trace| - 1];
      && EntriesChange(base, before)
      && (e.Enter? && e.info.Some? ==>
            e.info.value.Traced? && ContextFor(e.info.value.data) != Innermost(base, Open(before).value))
  }

  predicate OpenChange(base: Context, open: seq<Entered>) {
    open != [] ==>
      var init, info := open[..|open| - 1], open[|open| - 1].info;
      && OpenChange(base, init)
      && (info.Some? ==> info.value.Traced? && ContextFor(info.value.data) != Innermost(base, init))
  }

  lemma {:induction false} OpenSpansChange(base: Context, trace: seq<Event>)
    requires WellNested(trace) && EntriesChange(base, trace)
    ensures OpenChange(base, Open(trace).value)
  {
    if trace == [] {
    } else {
      var before, e := trace[..|trace| - 1], trace[|trace| - 1];
      OpenSpansChange(base, before);
      var open := Open(before).value;
      if e.Enter? {
        assert (open + [Entered(e.id, e.info)])[..|open|] == open;
      }
    }
  }

  /** The top guard never holds the context that should be current. */
  lemma {:induction false} TopGuardDiffers(base: Context, open: seq<Entered>)
    requires OpenChange(base, open) && FoundCount(open) > 0
    ensures var saved := Saved(base, open); saved != [] && saved[|saved| - 1] != Innermost(base, open)
  {
    var init := open[..|open| - 1];
    if open[|open| - 1].info.None? {
      TopGuardDiffers(base, init);
    }
  }

  /** The current context is that of the innermost open span. */
  predicate IsCurrent(base: Context, trace: seq<Event>) {
    Open(trace).Some? && Run(Thread(base, []), trace).current == Innermost(base, Open(trace).value)
  }

  /** The first foreign pop makes the wrong context current. */
  lemma {:induction false} ForeignPopLosesContext(base: Context, open: seq<Entered>)
    requires OpenChange(base, open) && open != [] && open[|open| - 1].info.None? && FoundCount(open) > 0
    ensures OnExit(InStepState(Thread(base, []), open)).current != Innermost(base, open[..|open| - 1])
  {
    TopGuardDiffers(base, open);
    assert [] + Saved(base, open) == Saved(base, open);
  }

  /** Exactly when the layer does its job: if entering a span that is found always
      changes the context, then the innermost open span is current after every prefix if
      and only if no span that is not found is exited while a found one is open. */
  lemma {:induction false} IsCurrentIffClean(base: Context, trace: seq<Event>)
    requires WellNested(trace) && EntriesChange(base, trace)
    ensures Clean(trace) <==> forall k | 0 <= k <= |trace| :: IsCurrent(base, trace[..k])
  {
    if trace == [] {
      assert trace[..0] == trace;
    } else {
      var n := |trace| - 1;
      var before := trace[..n];
      IsCurrentIffClean(base, before);
      forall k | 0 <= k <= n ensures before[..k] == trace[..k] {
      }
      assert trace[..n + 1] == trace;
      if Clean(trace) {
        CleanRun(Thread(base, []), trace);
      } else if Clean(before) {
        CleanRun(Thread(base, []), before);
        OpenSpansChange(base, before);
        ForeignPopLosesContext(base, Open(before).value);
        assert !IsCurrent(base, trace[..n + 1]);
      }
    }
  }

  predicate NoneTraced(trace: seq<Event>) {
    forall k | 0 <= k < |trace| && trace[k].Enter? :: trace[k].info.Some? ==> trace[k].info.value.Bare?
  }

  lemma {:induction false} UntracedRun(base: Context, trace: seq<Event>)
    requires NoneTraced(trace)
    ensures var t := Run(Thread(base, []), trace);
            t.current == base && forall i | 0 <= i < |t.guards| :: t.guards[i] == base
  {
    if trace == [] {
    } else {
      UntracedRun(base, trace[..|trace| - 1]);
    }
  }

  lemma {:induction false} UntracedOpen(base: Context, trace: seq<Event>)
    requires WellNested(trace) && NoneTraced(trace)
    ensures Innermost(base, Open(trace).value) == base
    ensures forall i | 0 <= i < |Open(trace).value| :: Open(trace).value[i].info != None ==>
              Open(trace).value[i].info.value.Bare?
  {
    if trace == [] {
    } else {
      var before, e := trace[..|trace| - 1], trace[|trace| - 1];
      UntracedOpen(base, before);
      var open := Open(before).value;
      if e.Enter? {
        PushedOpen(base, open, Entered(e.id, e.info));
      } else {
        var rest, last := open[..|open| - 1], open[|open| - 1];
        assert open == rest + [last];
        PushedOpen(base, rest, last);
      }
    }
  }

  lemma {:induction false} FirstEnter(start: Thread, id: nat, info: Option<SpanInfo>)
    ensures Run(start, [Enter(id, info)]) == OnEnter(start, info)
    ensures Open([Enter(id, info)]) == Some([Entered(id, info)])
  {
    NoEvents(start);
    TraceSnoc(start, [], Enter(id, info));
    assert [] + [Enter(id, info)] == [Enter(id, info)];
    assert [] + [Entered(id, info)] == [Entered(id, info)];
  }

  /** A span that is not found comes and goes. */
  function Visited(trace: seq<Event>, id: nat): seq<Event> {
    trace + [Enter(id, None)] + [Exit(id)]
  }

  /** All that is left of the visit is a popped guard, and the trace is no longer clean
      if that guard was a found span's. */
  lemma {:induction false} UnfoundVisit(start: Thread, trace: seq<Event>, id: nat)
    requires WellNested(trace)
    ensures Run(start, Visited(trace, id)) == OnExit(Run(start, trace))
    ensures Open(Visited(trace, id)) == Open(trace)
    ensures FoundCount(Open(trace).value) > 0 ==> !Clean(Visited(trace, id))
  {
    hide Run, Open, FoundCount;
    var open, inner := Open(trace).value, Entered(id, None);
    var inside := trace + [Enter(id, None)];
    TraceSnoc(start, trace, Enter(id, None));
    TraceSnoc(start, inside, Exit(id));
    PushedOpen(start.current, open, inner);
    assert (open + [inner])[..|open|] == open;
    var later := Visited(trace, id);
    assert later[..|later| - 1] == inside;
  }

  lemma {:induction false} StillUnclean(trace: seq<Event>)
    requires WellNested(trace) && trace != [] && !Clean(trace[..|trace| - 1])
    ensures !Clean(trace)
  {
  }

  lemma {:induction false} NothingTraced(trace: seq<Event>, k: nat)
    requires trace == Visited([Enter(1, Some(Bare))], 2) + [Exit(1)] && k <= |trace|
    ensures NoneTraced(trace[..k])
  {
  }

  /** Spans without data hide a foreign pop: on this trace the guards fall out of step,
      yet the right context is current all along. */
  lemma {:induction false} BareSpanHidesForeignPop(base: Context, trace: seq<Event>, k: nat)
    requires trace == Visited([Enter(1, Some(Bare))], 2) + [Exit(1)]
    requires k <= |trace|
    ensures WellNested(trace) && !Clean(trace) && IsCurrent(base, trace[..k])
  {
    hide Run, Open, FoundCount, NoneTraced, Clean;
    var start, first, outer := Thread(base, []), [Enter(1, Some(Bare))], Entered(1, Some(Bare));
    FirstEnter(start, 1, Some(Bare));
    OneFound(outer);
    UnfoundVisit(start, first, 2);
    TraceSnoc(start, Visited(first, 2), Exit(1));
    assert trace[..|trace| - 1] == Visited(first, 2);
    StillUnclean(trace);
    NothingTraced(trace, k);
    PrefixNested(trace, k);
    UntracedRun(base, trace[..k]);
    UntracedOpen(base, trace[..k]);
  }

  lemma {:induction false} OneFound(e: Entered)
    requires e.info.Some?
    ensures FoundCount([e]) == 1
  {
    assert [e][..0] == [];
  }

  /** What goes wrong otherwise: after a span that is not found has come and gone inside
      a traced one, the traced span is still open but no longer current. */
  lemma {:induction false} UnfoundSpanLosesContext(base: Context, d: OtelData)
    requires ContextFor(d) != base
    ensures var trace := Visited([Enter(1, Some(Traced(d)))], 2);
            && Open(trace) == Some([Entered(1, Some(Traced(d)))])
            && Run(Thread(base, []), trace).current == base
            && Innermost(base, Open(trace).value) != base
  {
    hide Run, Open, Innermost, Visited;
    FirstEnter(Thread(base, []), 1, Some(Traced(d)));
    UnfoundVisit(Thread(base, []), [Enter(1, Some(Traced(d)))], 2);
    PushedOpen(base, [], Entered(1, Some(Traced(d))));
    assert [] + [Entered(1, Some(Traced(d)))] == [Entered(1, Some(Traced(d)))];
  }

  /** A balanced trace gives a fresh thread its original context back in any case. */
  lemma {:induction false} BalancedRestores(base: Context, trace: seq<Event>)
    requires Open(trace) == Some([])
    ensures Run(Thread(base, []), trace) == Thread(base, [])
  {
    BottomIsBase(base, trace);
  }

  /** What the guards lead back to in the end. */
  function Bottom(t: Thread): Context {
    if t.guards == [] then t.current else t.guards[0]
  }

  lemma {:induction false} BottomStays(t: Thread, open: seq<Entered>, e: Event)
    requires |t.guards| <= |open| && OpenAfter(open, e).Some?
    ensures Bottom(OnEvent(t, e)) == Bottom(t)
    ensures |OnEvent(t, e).guards| <= |OpenAfter(open, e).value|
  {
  }

  lemma {:induction false} BottomIsBase(base: Context, trace: seq<Event>)
    requires WellNested(trace)
    ensures var t := Run(Thread(base, []), trace);
            |t.guards| <= |Open(trace).value| && Bottom(t) == base
  {
    hide OnEvent, OpenAfter;
    if trace == [] {
    } else {
      var before := trace[..|trace| - 1];
      BottomIsBase(base, before);
      BottomStays(Run(Thread(base, []), before), Open(before).value, trace[|trace| - 1]);
    }
  }

  // ---- Many threads --------------------------------------------------------------------

  /** An event and the thread it happens on. */
  datatype Located = Located(thread: nat, event: Event)

  /** Every thread starts from its own context, with no guards. */
  function RunAll(base: nat -> Context, trace: seq<Located>, thread: nat): Thread {
    RunThreads(base, trace)(thread)
  }

  function RunThreads(base: nat -> Context, trace: seq<Located>): nat -> Thread {
    if trace == [] then (t: nat) => Thread(base(t), [])
    else
      var before := RunThreads(base, trace[..|trace| - 1]);
      var Located(thread, event) := trace[|trace| - 1];
      (t: nat) => if t == thread then OnEvent(before(t), event) else before(t)
  }

  function OnThread(trace: seq<Located>, thread: nat): seq<Event> {
    if trace == [] then []
    else
      var last := trace[|trace| - 1];
      OnThread(trace[..|trace| - 1], thread) + if last.thread == thread then [last.event] else []
  }

  /** Each thread's context and guards depend on its own events alone. */
  lemma {:induction false} ThreadsAreIndependent(base: nat -> Context, trace: seq<Located>, thread: nat)
    ensures RunAll(base, trace, thread) == Run(Thread(base(thread), []), OnThread(trace, thread))
  {
    if trace == [] {
    } else {
      var n := |trace| - 1;
      ThreadsAreIndependent(base, trace[..n], thread);
      var own := OnThread(trace[..n], thread);
      if trace[n].thread == thread {
        assert (own + [trace[n].event])[..|own|] == own;
      } else {
        assert own + [] == own;
      }
    }
  }

  /** A task that moves between threads keeps its context: wherever its span is the
      innermost open one, the current context is the span's own, whatever the threads
      were doing before. */
  lemma {:induction false} ContextFollowsTheSpan(base: nat -> Context, trace: seq<Located>, thread: nat, d: OtelData)
    requires WellNested(OnThread(trace, thread)) && AllFound(OnThread(trace, thread))
    requires var open := Open(OnThread(trace, thread)).value;
             open != [] && open[|open| - 1].info == Some(Traced(d))
    ensures var cx := RunAll(base, trace, thread).current;
            && cx.span.traceId == (if d.traceId.Some? then d.traceId.value else d.parent.span.traceId)
            && cx.span.spanId == (if d.spanId.Some? then d.spanId.value else d.parent.span.spanId)
            && cx.span.sampled && !cx.span.remote && cx.values == d.parent.values
  {
    ThreadsAreIndependent(base, trace, thread);
    CurrentAfterTrace(Thread(base(thread), []), OnThread(trace, thread));
  }

  /** And when all of a thread's spans are closed it is as it was at the start. */
  lemma {:induction false} BalancedThreadIsRestored(base: nat -> Context, trace: seq<Located>, thread: nat)
    requires Open(OnThread(trace, thread)) == Some([])
    ensures RunAll(base, trace, thread) == Thread(base(thread), [])
  {
    ThreadsAreIndependent(base, trace, thread);
    BalancedRestores(base(thread), OnThread(trace, thread));
  }
}
