/** Whole runs of the assembler: any sequence of notifications, cut and timed in any way. */
module Runs {
  import opened Bytes
  import opened Wrappers
  import opened Framing
  import opened Chunking
  import opened Payloads
  import opened Readings
  import opened Accumulation

  // ---- times do not matter to anything but themselves ----

  function Untimed(parts: map<Text, Part>): map<Text, Part> {
    map s | s in parts :: parts[s].(cellsAt := None)
  }

  function Timeless(b: Book): Book {
    b.(parts := Untimed(b.parts))
  }

  lemma ApplyTimeless(p: Part, q: Part, u: Update, at: Stamp, now: Stamp)
    requires p.(cellsAt := None) == q.(cellsAt := None)
    ensures ApplyUpdate(p, u, at).(cellsAt := None) == ApplyUpdate(q, u, now).(cellsAt := None)
  {}

  lemma TimelessUpdate(p: map<Text, Part>, q: map<Text, Part>, s: Text, v: Part, w: Part)
    requires Untimed(p) == Untimed(q) && v.(cellsAt := None) == w.(cellsAt := None)
    ensures Untimed(p[s := v]) == Untimed(q[s := w])
  {
    assert Untimed(p[s := v]) == Untimed(p)[s := v.(cellsAt := None)];
    assert Untimed(q[s := w]) == Untimed(q)[s := w.(cellsAt := None)];
  }

  lemma StepTimeless(b: Book, c: Book, x: Stamped, y: Stamped)
    requires Timeless(b) == Timeless(c) && x.frame == y.frame
    ensures Timeless(Step(b, x)) == Timeless(Step(c, y))
  {
    hide Interpret, IsTelemetry, ApplyUpdate, RaiseRoster, Untimed;
    var s, f := x.frame.serial, x.frame;
    SameParts(b, c, s);
    var mine := (if s in b.parts then b.parts[s] else NewPart(f.position)).(position := f.position);
    var yours := (if s in c.parts then c.parts[s] else NewPart(f.position)).(position := f.position);
    ApplyTimeless(mine, yours, Interpret(f), x.at, y.at);
    TimelessUpdate(b.parts, c.parts, s, ApplyUpdate(mine, Interpret(f), x.at),
                   ApplyUpdate(yours, Interpret(f), y.at));
  }

  lemma SameParts(b: Book, c: Book, s: Text)
    requires Timeless(b) == Timeless(c)
    ensures s in b.parts <==> s in c.parts
    ensures s in b.parts ==> b.parts[s].(cellsAt := None) == c.parts[s].(cellsAt := None)
  {
    assert s in Untimed(b.parts) <==> s in b.parts;
    assert s in Untimed(c.parts) <==> s in c.parts;
  }

  lemma {:induction false} TimesDoNotMatter(g: seq<Stamped>, h: seq<Stamped>)
    requires Bare(g) == Bare(h)
    ensures Timeless(Assemble(g)) == Timeless(Assemble(h))
    decreases |g|
  {
    hide Step, Timeless;
    assert |g| == |h|;
    if g != [] {
      var m := |g| - 1;
      assert Bare(g[..m]) == Bare(g)[..m] && Bare(h[..m]) == Bare(h)[..m];
      TimesDoNotMatter(g[..m], h[..m]);
      assert g[m].frame == Bare(g)[m] == Bare(h)[m] == h[m].frame;
      StepTimeless(Assemble(g[..m]), Assemble(h[..m]), g[m], h[m]);
    }
  }

  // ---- runs ----

  datatype Notification = Notification(data: seq<byte>, at: Stamp)

  /** The assembler's state: what it has gathered and what it has not yet parsed. */
  datatype Assembly = Assembly(book: Book, buffer: seq<byte>)

  const FRESH := Assembly(EMPTY, [])

  /** The effect of one feed. */
  ghost function Fed(a: Assembly, n: Notification): Assembly {
    var s := a.buffer + n.data;
    Assembly(Fold(a.book, StampAll(Frames(s), n.at)), Leftover(s))
  }

  /** What one feed returns: the serials that changed. */
  ghost function Changed(a: Assembly, n: Notification): set<Text> {
    TouchedBy(Frames(a.buffer + n.data))
  }

  ghost function Run(ns: seq<Notification>): Assembly {
    if ns == [] then FRESH else Fed(Run(ns[..|ns| - 1]), ns[|ns| - 1])
  }

  ghost function History(ns: seq<Notification>): seq<Stamped> {
    if ns == [] then []
    else
      var before, n := ns[..|ns| - 1], ns[|ns| - 1];
      History(before) + StampAll(Frames(Run(before).buffer + n.data), n.at)
  }

  ghost function ChangedInRun(ns: seq<Notification>): set<Text> {
    if ns == [] then {}
    else ChangedInRun(ns[..|ns| - 1]) + Changed(Run(ns[..|ns| - 1]), ns[|ns| - 1])
  }

  function Stream(ns: seq<Notification>): seq<byte> {
    if ns == [] then [] else Stream(ns[..|ns| - 1]) + ns[|ns| - 1].data
  }

  lemma TouchedAppend(f: seq<Frame>, g: seq<Frame>)
    ensures TouchedBy(f + g) == TouchedBy(f) + TouchedBy(g)
  {
    hide Touches;
    forall s | s in TouchedBy(g)
      ensures s in TouchedBy(f + g)
    {
      var i :| 0 <= i < |g| && Touches(g[i]) && g[i].serial == s;
      assert (f + g)[|f| + i] == g[i];
    }
    forall s | s in TouchedBy(f)
      ensures s in TouchedBy(f + g)
    {
      var i :| 0 <= i < |f| && Touches(f[i]) && f[i].serial == s;
      assert (f + g)[i] == f[i];
    }
  }

  lemma BareAppend(h: seq<Stamped>, frames: seq<Frame>, now: Stamp)
    ensures Bare(h + StampAll(frames, now)) == Bare(h) + frames
  {}

  /** A run gathers exactly what the frames of the whole stream amount to. */
  lemma {:induction false} RunIsFold(ns: seq<Notification>)
    ensures Run(ns).book == Assemble(History(ns))
    ensures Run(ns).buffer == Leftover(Stream(ns))
    ensures Bare(History(ns)) == Frames(Stream(ns))
    ensures ChangedInRun(ns) == TouchedBy(Frames(Stream(ns)))
    decreases |ns|
  {
    hide Frames, Leftover, Step, TouchedBy, Bare;
    if ns == [] {
      NoFramesInNothing();
      NothingTouchesNothing();
    } else {
      var before, n := ns[..|ns| - 1], ns[|ns| - 1];
      var frames := Frames(Run(before).buffer + n.data);
      RunIsFold(before);
      ParseInTwo(Stream(before), n.data);
      FoldAppend(EMPTY, History(before), StampAll(frames, n.at));
      BareAppend(History(before), frames, n.at);
      TouchedAppend(Frames(Stream(before)), frames);
    }
  }

  lemma NothingTouchesNothing()
    ensures TouchedBy([]) == {} && Bare([]) == []
  {}

  /** Two runs over the same bytes end in the same state, times aside, and report the same changes,
      however each of them was cut into notifications. */
  lemma RunsAgree(ms: seq<Notification>, ns: seq<Notification>)
    requires Stream(ms) == Stream(ns)
    ensures Timeless(Run(ms).book) == Timeless(Run(ns).book)
    ensures Run(ms).buffer == Run(ns).buffer
    ensures ChangedInRun(ms) == ChangedInRun(ns)
  {
    hide Frames, Leftover, TouchedBy, Timeless, Assemble;
    RunIsFold(ms);
    RunIsFold(ns);
    TimesDoNotMatter(History(ms), History(ns));
  }

  /** After any run, what is held of a battery is what the last well-formed frame of each kind said. */
  lemma RunHoldsLastFrames(ns: seq<Notification>, s: Text)
    ensures PartOf(Run(ns).book, s) == LastSeen(History(ns), s)
    ensures Bare(History(ns)) == Frames(Stream(ns))
  {
    hide Frames, Leftover, TouchedBy, Assemble;
    RunIsFold(ns);
    LastFrameWins(History(ns), s);
  }

  // ---- progress ----

  ghost function CompleteSet(b: Book): set<Text> {
    set s | s in b.parts && IsComplete(b.parts[s])
  }

  lemma {:induction false} LastIsSomewhere<T>(h: seq<Stamped>, pick: Stamped -> Option<T>)
    ensures Last(h, pick).Some? <==> exists i :: 0 <= i < |h| && pick(h[i]).Some?
    ensures Last(h, pick).Some? ==> exists i :: 0 <= i < |h| && pick(h[i]) == Last(h, pick)
    decreases |h|
  {
    if h != [] {
      var before := h[..|h| - 1];
      LastIsSomewhere(before, pick);
      assert forall i :: 0 <= i < |before| ==> h[i] == before[i];
    }
  }

  /** A well-formed frame of one kind from one battery. */
  predicate HasSummary(x: Stamped, s: Text) {
    Carries(x, s, MSG_RT_SUMMARY) && |x.frame.payload| >= 29
  }

  predicate HasCells(x: Stamped, s: Text) {
    Carries(x, s, MSG_RT_CELLS) && |x.frame.payload| == 32
  }

  lemma {:induction false} SeenAtAll(h: seq<Stamped>, s: Text, i: nat)
    requires i < |h| && From(h[i], s)
    ensures Last(h, PositionIn(s)).Some?
  {
    hide From;
    LastIsSomewhere(h, PositionIn(s));
    assert PositionIn(s)(h[i]).Some?;
  }

  /** A battery is complete exactly when the history holds a well-formed summary and a well-formed cell
      frame from it. */
  lemma CompleteMeansBoth(h: seq<Stamped>, s: Text)
    ensures s in CompleteSet(Assemble(h)) <==>
            (exists i :: 0 <= i < |h| && HasSummary(h[i], s)) &&
            (exists i :: 0 <= i < |h| && HasCells(h[i], s))
  {
    hide From, Assemble, Words, SummaryOf;
    LastFrameWins(h, s);
    LastIsSomewhere(h, SummaryIn(s));
    LastIsSomewhere(h, CellsIn(s));
    forall i | 0 <= i < |h|
      ensures SummaryIn(s)(h[i]).Some? <==> HasSummary(h[i], s)
      ensures CellsIn(s)(h[i]).Some? <==> HasCells(h[i], s)
      ensures CellsIn(s)(h[i]).Some? ==> CellsIn(s)(h[i]).value != []
    {}
    if Last(h, SummaryIn(s)).Some? {
      var i :| 0 <= i < |h| && SummaryIn(s)(h[i]).Some?;
      SeenAtAll(h, s, i);
    }
  }

  /** Progress is monotone: more frames never make a battery incomplete. */
  lemma CompleteGrows(h: seq<Stamped>, g: seq<Stamped>)
    ensures CompleteSet(Assemble(h)) <= CompleteSet(Assemble(h + g))
    ensures |CompleteSet(Assemble(h))| <= |CompleteSet(Assemble(h + g))|
  {
    hide CompleteSet, Assemble, HasSummary, HasCells;
    forall s | s in CompleteSet(Assemble(h))
      ensures s in CompleteSet(Assemble(h + g))
    {
      CompleteMeansBoth(h, s);
      CompleteMeansBoth(h + g, s);
      var i :| 0 <= i < |h| && HasSummary(h[i], s);
      var j :| 0 <= j < |h| && HasCells(h[j], s);
      assert (h + g)[i] == h[i] && (h + g)[j] == h[j];
    }
    SubsetSize(CompleteSet(Assemble(h)), CompleteSet(Assemble(h + g)));
  }

  lemma {:induction false} SubsetSize<T>(a: set<T>, b: set<T>)
    requires a <= b
    ensures |a| <= |b|
  {
    assert |b| == |a| + |b - a| by {
      assert b == a + (b - a);
    }
  }
}
