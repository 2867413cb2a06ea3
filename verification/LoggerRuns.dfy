/** Whole runs of messages and ticks: refinement of the sliding window, conservation, end to end. */
module LoggerRuns {
  import opened Config
  import opened Sequences
  import opened Format
  import opened RamRing
  import opened FlashLog
  import opened FlashRuns
  import opened Logger
  import opened LoggerLaws
  import opened Dump

  // ------------------------------------------------------------ runs

  /** A run is a list of events, each acceptable in the state it meets. */
  ghost predicate Acceptables(s: State, es: seq<Event>)
    decreases |es|
  {
    es == [] || (s.Valid() && Acceptable(s, es[0]) && Acceptables(After(s, es[0]), es[1..]))
  }

  ghost function RunOf(s: State, es: seq<Event>): State
    requires Acceptables(s, es)
    decreases |es|
  {
    if es == [] then s else RunOf(After(s, es[0]), es[1..])
  }

  ghost function HistoryOf(s: State, h: History, es: seq<Event>): History
    requires Acceptables(s, es)
    decreases |es|
  {
    if es == [] then h else HistoryOf(After(s, es[0]), HistoryAfter(s, h, es[0]), es[1..])
  }

  /** The concrete run, seen abstractly, is a run of the abstract logger. */
  ghost predicate Simulates(s: State, h: History, es: seq<Event>)
    requires Acceptables(s, es)
    decreases |es|
  {
    es == [] ||
    (After(s, es[0]).Valid()
     && AbstractStep(View(s, h), es[0], Emitted(s, es[0]), View(After(s, es[0]), HistoryAfter(s, h, es[0])))
     && Simulates(After(s, es[0]), HistoryAfter(s, h, es[0]), es[1..]))
  }

  lemma EventStep(s: State, h: History, e: Event)
    requires Working(s, h) && Acceptable(s, e)
    ensures Working(After(s, e), HistoryAfter(s, h, e))
    ensures AbstractStep(View(s, h), e, Emitted(s, e), View(After(s, e), HistoryAfter(s, h, e)))
  {
    match e
    case Message(ps, critical) => MessageStep(s, h, ps, critical);
    case Timer(first, second) =>
      if s.dest == ToFlash {
        FlashTick(s, h, first, second);
      } else {
        SinkTick(s, h, first, second);
      }
  }

  /** The text of all messages of a run. */
  function AllText(es: seq<Event>): seq<byte> {
    if es == [] then []
    else TextOf(es[0]) + AllText(es[1..])
  }

  /** Every message of the run is smooth. */
  ghost predicate AllSmooth(s: State, es: seq<Event>)
    requires Acceptables(s, es)
    decreases |es|
  {
    es == [] || (Smooth(s, es[0]) && AllSmooth(After(s, es[0]), es[1..]))
  }

  ghost function Whole(a: Abstract): seq<byte> {
    a.delivered + a.window
  }

  function TextOf(e: Event): seq<byte> {
    if e.Message? then Render(e.ps) else []
  }

  lemma EventConserves(s: State, h: History, e: Event)
    requires Working(s, h) && Acceptable(s, e) && Smooth(s, e)
    ensures After(s, e).Valid()
    ensures Whole(View(After(s, e), HistoryAfter(s, h, e))) == Whole(View(s, h)) + TextOf(e)
  {
    EventStep(s, h, e);
    if e.Message? {
      SmoothMessage(s, e.ps, e.critical);
    }
    WindowConserves(View(s, h), e, View(After(s, e), HistoryAfter(s, h, e)));
  }

  lemma WindowConserves(a: Abstract, e: Event, b: Abstract)
    requires |a.window| < RING_SIZE && AbstractStep(a, e, TextOf(e), b)
    requires e.Message? ==> |a.window| + |Render(e.ps)| < RING_SIZE
    ensures Whole(b) == Whole(a) + TextOf(e)
  {
  }

  lemma EventKeepsMode(s: State, e: Event)
    requires s.Valid() && Acceptable(s, e)
    ensures After(s, e).dest == s.dest && After(s, e).flash.n == s.flash.n
  {
    if e.Timer? && ReadableLen(s.ring.rd, s.ring.wr) > 0 {
      SendPacketKeepsMode(s, e.first);
      SendPacketKeepsValid(s, e.first);
      var s1 := SendPacket(s, ReadableLen(s.ring.rd, s.ring.wr), e.first).0;
      if SecondPacketDue(s1) {
        SendPacketKeepsMode(s1, e.second);
      }
    }
  }

  /** The end of a run, all facts together. */
  lemma {:induction false} RunFacts(s: State, h: History, es: seq<Event>) returns (end: State, g: History)
    requires Working(s, h) && Acceptables(s, es)
    ensures end == RunOf(s, es) && g == HistoryOf(s, h, es) && Working(end, g)
    ensures Simulates(s, h, es)
    ensures AllSmooth(s, es) ==> Whole(View(end, g)) == Whole(View(s, h)) + AllText(es)
    ensures end.dest == s.dest && end.flash.n == s.flash.n && g.origin == h.origin
    decreases |es|
  {
    if es == [] {
      end, g := s, h;
      assert Whole(View(s, h)) + [] == Whole(View(s, h));
    } else {
      var t, th := After(s, es[0]), HistoryAfter(s, h, es[0]);
      EventStep(s, h, es[0]);
      EventKeepsMode(s, es[0]);
      end, g := RunFacts(t, th, es[1..]);
      if AllSmooth(s, es) {
        EventConserves(s, h, es[0]);
        Regroup(Whole(View(s, h)), TextOf(es[0]), AllText(es[1..]));
      }
    }
  }

  /** Every run, with or without overruns and disturbed messages, refines the sliding window, whatever the
      destination. */
  lemma {:induction false} EveryRunRefinesWindow(s: State, h: History, es: seq<Event>)
    requires Working(s, h) && Acceptables(s, es)
    ensures Simulates(s, h, es) && RunOf(s, es).Valid()
  {
    var end, g := RunFacts(s, h, es);
  }

  /** Without overruns and disturbed messages: first in, first out, nothing lost, nothing twice. What
      was delivered, followed by what is pending, is all that was logged. */
  lemma {:induction false} EveryRunConserves(s: State, h: History, es: seq<Event>)
    requires Working(s, h) && Acceptables(s, es) && AllSmooth(s, es)
    ensures RunOf(s, es).Valid()
    ensures Whole(View(RunOf(s, es), HistoryOf(s, h, es))) == Whole(View(s, h)) + AllText(es)
  {
    var end, g := RunFacts(s, h, es);
  }

  /** The logger as it starts in flash mode. */
  ghost predicate FreshFlashLogger(s: State) {
    && s.Valid() && s.ring.rd == s.ring.wr && s.task == Ready && s.dest == ToFlash && !s.printout
    && Inv(s.flash, NO_HISTORY)
  }

  /** The bytes read back from the flash are the newest bytes of the stream. */
  lemma LogReadsBack(f: Flash, h: History)
    requires Inv(f, h)
    ensures f.InArea() && |LogBytes(f)| <= |h.stream|
    ensures LogBytes(f) == Last(h.stream, |LogBytes(f)|)
  {
    LogIsSuffix(f, h);
    var log := LogBytes(f);
    forall i | 0 <= i < |log|
      ensures log[i] == Last(h.stream, |log|)[i]
    {
      assert LogCells(f)[i] == Programmed(Last(h.stream, |log|)[i]);
    }
  }

  /** In flash mode the stream in the history, followed by what is pending, is all that was logged. */
  lemma StreamAndWindow(s: State, h: History, all: seq<byte>, end: State, g: History)
    requires FreshFlashLogger(s) && h == NO_HISTORY
    requires end.Valid() && end.dest == ToFlash && Whole(View(end, g)) == Whole(View(s, h)) + all
    ensures g.stream + end.ring.Pending() == all
  {
  }

  lemma SuffixOfAll(stream: seq<byte>, log: seq<byte>, pending: seq<byte>, all: seq<byte>)
    requires stream + pending == all && |log| <= |stream| && log == Last(stream, |log|)
    ensures EndsWith(all, log + pending)
    ensures |log| == |stream| ==> log + pending == all
  {
  }

  /** End to end: what is read back from the flash cells, followed by what still waits in RAM, is the
      end of everything ever logged; and the log holds all of it, or as much as the sectors allow. */
  lemma EveryMessageReachesTheLog(s: State, es: seq<Event>)
    requires FreshFlashLogger(s) && Acceptables(s, es) && AllSmooth(s, es)
    ensures RunOf(s, es).Valid()
    ensures EndsWith(AllText(es), LogBytes(RunOf(s, es).flash) + RunOf(s, es).ring.Pending())
    ensures LogBytes(RunOf(s, es).flash) + RunOf(s, es).ring.Pending() == AllText(es)
            || |LogBytes(RunOf(s, es).flash)| >= 65536 * (RunOf(s, es).flash.n - 2) + THRESHOLD_KB * 1024
  {
    var end, g := RunFacts(s, NO_HISTORY, es);
    StreamAndWindow(s, NO_HISTORY, AllText(es), end, g);
    LogHoldsEnough(end.flash, g);
    SuffixOfAll(g.stream, LogBytes(end.flash), end.ring.Pending(), AllText(es));
  }

  lemma LogHoldsEnough(f: Flash, h: History)
    requires Inv(f, h) && h.origin == 0
    ensures f.InArea() && |LogBytes(f)| <= |h.stream|
    ensures LogBytes(f) == Last(h.stream, |LogBytes(f)|)
    ensures |LogBytes(f)| == |h.stream| || |LogBytes(f)| >= 65536 * (f.n - 2) + THRESHOLD_KB * 1024
  {
    LogReadsBack(f, h);
    LogBounds(f, h);
  }
}
