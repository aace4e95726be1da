/** The reaction timeline: the list of reactions on screen, pruned by age every
    second and extended by the emit tick and by inbound room events. */
module Timeline {
  import opened LiveTypes

  /** How long a reaction stays on the timeline after its timestamp (ms). */
  const VisibleMs := 4000
  /** Period of the prune interval (ms). */
  const PrunePeriodMs := 1000
  /** Period of the emit interval (ms). */
  const EmitPeriodMs := 100

  /** The prune filter's test: the reaction is younger than the window at `now`. */
  predicate IsVisible(r: ReactionInstance, now: int) {
    r.timestamp > now - VisibleMs
  }

  /** The prune step: keep the reactions still visible at `now`, in order. */
  function Prune(rs: seq<ReactionInstance>, now: int): (kept: seq<ReactionInstance>)
    ensures |kept| <= |rs|
    ensures forall r :: r in kept <==> r in rs && IsVisible(r, now)
  {
    if rs == [] then []
    else if IsVisible(rs[0], now) then [rs[0]] + Prune(rs[1..], now)
    else Prune(rs[1..], now)
  }

  /** `idx` picks the elements of `a` out of `b` at strictly increasing positions. */
  ghost predicate Embeds<T>(idx: seq<int>, a: seq<T>, b: seq<T>) {
    && |idx| == |a|
    && (forall i :: 0 <= i < |idx| ==> 0 <= idx[i] < |b| && a[i] == b[idx[i]])
    && (forall i, j :: 0 <= i < j < |idx| ==> idx[i] < idx[j])
  }

  ghost predicate IsSubsequence<T>(a: seq<T>, b: seq<T>) {
    exists idx :: Embeds(idx, a, b)
  }

  /** Pruning is exactly a filter: the result is `rs` restricted to the positions
      whose reaction is visible, in their original order. */
  lemma {:induction false} PruneSelectsVisible(rs: seq<ReactionInstance>, now: int) returns (idx: seq<int>)
    ensures Embeds(idx, Prune(rs, now), rs)
    ensures forall j :: 0 <= j < |rs| ==> (j in idx <==> IsVisible(rs[j], now))
  {
    if rs == [] {
      idx := [];
    } else {
      var rest := PruneSelectsVisible(rs[1..], now);
      var shifted := Shifted(rest);
      EmbedsSkip(rest, Prune(rs[1..], now), rs);
      if IsVisible(rs[0], now) {
        idx := [0] + shifted;
        EmbedsTake(rest, Prune(rs[1..], now), rs);
        assert forall j :: 1 <= j < |rs| ==> (j in idx <==> j in shifted);
      } else {
        idx := shifted;
      }
    }
  }

  /** An embedding into the tail of `b` is, shifted, an embedding into `b`. */
  lemma EmbedsSkip<T>(idx: seq<int>, a: seq<T>, b: seq<T>)
    requires b != [] && Embeds(idx, a, b[1..])
    ensures Embeds(Shifted(idx), a, b)
  {
  }

  /** ... and, with the head of `b` taken first, an embedding of `[b[0]] + a` into `b`. */
  lemma EmbedsTake<T>(idx: seq<int>, a: seq<T>, b: seq<T>)
    requires b != [] && Embeds(idx, a, b[1..])
    ensures Embeds([0] + Shifted(idx), [b[0]] + a, b)
  {
    var s := [0] + Shifted(idx);
    forall i, j | 0 <= i < j < |s|
      ensures s[i] < s[j]
    {
      if i > 0 {
        assert s[i] == idx[i - 1] + 1 && s[j] == idx[j - 1] + 1;
      } else {
        assert s[j] == idx[j - 1] + 1 >= 1;
      }
    }
  }

  /** Every position moved one place to the right. */
  function Shifted(idx: seq<int>): (s: seq<int>)
    ensures |s| == |idx|
    ensures forall i :: 0 <= i < |idx| ==> s[i] == idx[i] + 1
    ensures forall j :: j in s <==> j - 1 in idx
  {
    if idx == [] then [] else [idx[0] + 1] + Shifted(idx[1..])
  }

  /** The prune step never reorders and never adds: its result is a subsequence of its input. */
  lemma PruneIsSubsequence(rs: seq<ReactionInstance>, now: int)
    ensures IsSubsequence(Prune(rs, now), rs)
  {
    var idx := PruneSelectsVisible(rs, now);
  }

  /** Two prune steps are one prune step at the later time. */
  lemma {:induction false} PruneTwice(rs: seq<ReactionInstance>, a: int, b: int)
    ensures Prune(Prune(rs, a), b) == Prune(rs, if a < b then b else a)
  {
    if rs != [] {
      PruneTwice(rs[1..], a, b);
    }
  }

  /** Pruning the list and appending commute: new reactions stay behind older ones. */
  lemma {:induction false} PruneAppend(xs: seq<ReactionInstance>, ys: seq<ReactionInstance>, now: int)
    ensures Prune(xs + ys, now) == Prune(xs, now) + Prune(ys, now)
  {
    if xs == [] {
      assert xs + ys == ys;
    } else {
      assert (xs + ys)[0] == xs[0];
      assert (xs + ys)[1..] == xs[1..] + ys;
      PruneAppend(xs[1..], ys, now);
      if IsVisible(xs[0], now) {
        assert [xs[0]] + (Prune(xs[1..], now) + Prune(ys, now))
            == ([xs[0]] + Prune(xs[1..], now)) + Prune(ys, now);
      }
    }
  }

  /** The timeline after a series of prune ticks at the given times, in order. */
  function PruneAll(rs: seq<ReactionInstance>, ticks: seq<int>): seq<ReactionInstance>
    decreases |ticks|
  {
    if ticks == [] then rs else PruneAll(Prune(rs, ticks[0]), ticks[1..])
  }

  function Latest(ticks: seq<int>): (m: int)
    requires ticks != []
    ensures m in ticks && forall t :: t in ticks ==> t <= m
  {
    if |ticks| == 1 then ticks[0]
    else
      var rest := Latest(ticks[1..]);
      assert ticks == [ticks[0]] + ticks[1..];
      if ticks[0] < rest then rest else ticks[0]
  }

  /** Batched pruning: a series of prune ticks removes what the latest one alone removes. */
  lemma {:induction false} PruneAllIsLatest(rs: seq<ReactionInstance>, ticks: seq<int>)
    requires ticks != []
    ensures PruneAll(rs, ticks) == Prune(rs, Latest(ticks))
    decreases |ticks|
  {
    if |ticks| > 1 {
      PruneAllIsLatest(Prune(rs, ticks[0]), ticks[1..]);
      PruneTwice(rs, ticks[0], Latest(ticks[1..]));
    }
  }

  /** A reaction survives every prune tick that happens less than 4000 ms after its timestamp. */
  lemma VisibleThroughWindow(rs: seq<ReactionInstance>, ticks: seq<int>, r: ReactionInstance)
    requires r in rs
    requires forall t :: t in ticks ==> t < r.timestamp + VisibleMs
    ensures r in PruneAll(rs, ticks)
  {
    if ticks != [] {
      PruneAllIsLatest(rs, ticks);
    }
  }

  /** With the prune tick firing at least once a second, a reaction is gone from
      the timeline 5000 ms after its timestamp at the latest. */
  lemma GoneAfterWindowAndPeriod(rs: seq<ReactionInstance>, ticks: seq<int>, r: ReactionInstance, query: int)
    requires ticks != [] && query - PrunePeriodMs < ticks[|ticks| - 1]
    requires query >= r.timestamp + VisibleMs + PrunePeriodMs
    ensures r !in PruneAll(rs, ticks)
  {
    assert ticks[|ticks| - 1] in ticks;
    PruneAllIsLatest(rs, ticks);
  }

  /** The reaction list and the broadcast log, the two things the emit tick extends. */
  datatype Feed = Feed(reactions: seq<ReactionInstance>, broadcasts: seq<ReactionEvent>)

  /** The emit tick fires only in pressed Reaction mode with a cursor on the surface. */
  predicate Emitting(mode: CursorState, cursor: Option<Point>) {
    mode.Reaction? && mode.isPressed && cursor.Some?
  }

  /** One firing of the emit interval at time `now`. */
  function EmitStep(f: Feed, mode: CursorState, cursor: Option<Point>, now: int): (g: Feed)
    ensures var added := if Emitting(mode, cursor) then 1 else 0;
            |g.reactions| == |f.reactions| + added && |g.broadcasts| == |f.broadcasts| + added
    ensures f.reactions <= g.reactions && f.broadcasts <= g.broadcasts
    ensures Emitting(mode, cursor) ==>
              var r := g.reactions[|f.reactions|];
              && r == ReactionInstance(cursor.value, mode.reaction, now)
              && g.broadcasts[|f.broadcasts|] == ReactionEvent(r.point.x, r.point.y, r.value)
  {
    if Emitting(mode, cursor) then
      Feed(f.reactions + [ReactionInstance(cursor.value, mode.reaction, now)],
           f.broadcasts + [ReactionEvent(cursor.value.x, cursor.value.y, mode.reaction)])
    else f
  }

  /** Successive firings of the emit interval at the given times, mode and cursor held fixed. */
  function EmitRun(f: Feed, mode: CursorState, cursor: Option<Point>, times: seq<int>): Feed
    decreases |times|
  {
    if times == [] then f else EmitRun(EmitStep(f, mode, cursor, times[0]), mode, cursor, times[1..])
  }

  /** The reactions emitted at point `p` with value `v`, one per time. */
  function Burst(p: Point, v: string, times: seq<int>): (b: seq<ReactionInstance>)
    ensures |b| == |times|
  {
    seq(|times|, i requires 0 <= i < |times| => ReactionInstance(p, v, times[i]))
  }

  /** While the pointer is held in Reaction mode, every tick adds one reaction at the
      cursor with the chosen value and that tick's time, and one matching broadcast. */
  lemma {:induction false} HeldPointerEmitsEveryTick(f: Feed, mode: CursorState, cursor: Option<Point>, times: seq<int>)
    requires Emitting(mode, cursor)
    ensures EmitRun(f, mode, cursor, times).reactions
         == f.reactions + Burst(cursor.value, mode.reaction, times)
    ensures EmitRun(f, mode, cursor, times).broadcasts
         == f.broadcasts + seq(|times|, _ => ReactionEvent(cursor.value.x, cursor.value.y, mode.reaction))
    decreases |times|
  {
    if times != [] {
      var g := EmitStep(f, mode, cursor, times[0]);
      HeldPointerEmitsEveryTick(g, mode, cursor, times[1..]);
      var p, v := cursor.value, mode.reaction;
      assert Burst(p, v, times) == [ReactionInstance(p, v, times[0])] + Burst(p, v, times[1..]);
      var e := ReactionEvent(p.x, p.y, v);
      assert seq(|times|, _ => e) == [e] + seq(|times| - 1, _ => e);
    }
  }

  /** Outside pressed Reaction mode, or without a cursor, the emit ticks change nothing. */
  lemma {:induction false} IdleEmitsNothing(f: Feed, mode: CursorState, cursor: Option<Point>, times: seq<int>)
    requires !Emitting(mode, cursor)
    ensures EmitRun(f, mode, cursor, times) == f
    decreases |times|
  {
    if times != [] {
      IdleEmitsNothing(f, mode, cursor, times[1..]);
    }
  }

  /** One second of holding the pointer in Reaction mode: the ten emit ticks add exactly
      ten reactions at the cursor with the chosen value, and ten broadcasts of it. */
  lemma OneSecondHeld(f: Feed, mode: CursorState, cursor: Option<Point>, start: int)
    requires Emitting(mode, cursor)
    ensures var times := seq(PrunePeriodMs / EmitPeriodMs, i => start + EmitPeriodMs * (i + 1));
            var g := EmitRun(f, mode, cursor, times);
            && |g.reactions| == |f.reactions| + 10
            && |g.broadcasts| == |f.broadcasts| + 10
            && g.reactions[..|f.reactions|] == f.reactions
            && (forall r :: r in g.reactions[|f.reactions|..] ==>
                  r.point == cursor.value && r.value == mode.reaction
                  && start < r.timestamp <= start + PrunePeriodMs)
            && (forall e :: e in g.broadcasts[|f.broadcasts|..] ==>
                  e == ReactionEvent(cursor.value.x, cursor.value.y, mode.reaction))
  {
    var times := seq(PrunePeriodMs / EmitPeriodMs, i => start + EmitPeriodMs * (i + 1));
    HeldPointerEmitsEveryTick(f, mode, cursor, times);
    var g := EmitRun(f, mode, cursor, times);
    assert g.reactions[|f.reactions|..] == Burst(cursor.value, mode.reaction, times);
  }
}
