/** A school's bell schedule as the bot stores it: one string
    "HH:MM-HH:MM|HH:MM-HH:MM|..." per timetable row, read back into
    (start, end) pairs of minutes after midnight. The string is written from
    the server's "HHMM" pairs (with a twelve-period default in the newer
    revision, with none in the older), or from a user's manual correction. */
module BellSchedule {
  import opened Wrappers
  import opened Text

  /** One period of the school day, as the Kotlin `Pair(first, second)`. */
  datatype Period = Period(start: int, end: int)

  /** `stamp.split(":").let { it[0].toInt() * 60 + it[1].toInt() }` in 32-bit
      arithmetic; `None` where Kotlin throws (too few pieces, not a number). */
  function ParseStamp(stamp: string): Option<int>
  {
    var it := Split(stamp, ':');
    match ParseInt(it[0])
    case None => None
    case Some(h) =>
      if |it| < 2 then None
      else match ParseInt(it[1])
        case None => None
        case Some(m) => Some(Wrap32(Wrap32(h * 60) + m))
  }

  /** The `map` over the pieces of one period: every piece is parsed, even
      pieces after the second that the pair then ignores. */
  function ParseStamps(stamps: seq<string>): (r: Option<seq<int>>)
    ensures r.Some? <==> forall i :: 0 <= i < |stamps| ==> ParseStamp(stamps[i]).Some?
    ensures r.Some? ==> |r.value| == |stamps|
    ensures r.Some? ==> forall i :: 0 <= i < |stamps| ==> ParseStamp(stamps[i]) == Some(r.value[i])
  {
    if |stamps| == 0 then Some([])
    else match ParseStamp(stamps[0])
      case None => None
      case Some(v) =>
        match ParseStamps(stamps[1..])
        case None => None
        case Some(rest) => Some([v] + rest)
  }

  /** `period.split("-").map { ... }.let { it[0] to it[1] }`. */
  function ParsePeriod(period: string): Option<Period>
  {
    match ParseStamps(Split(period, '-'))
    case None => None
    case Some(vs) => if |vs| < 2 then None else Some(Period(vs[0], vs[1]))
  }

  function ParsePeriods(segments: seq<string>): (r: Option<seq<Period>>)
    ensures r.Some? <==> forall i :: 0 <= i < |segments| ==> ParsePeriod(segments[i]).Some?
    ensures r.Some? ==> |r.value| == |segments|
    ensures r.Some? ==> forall i :: 0 <= i < |segments| ==> ParsePeriod(segments[i]) == Some(r.value[i])
  {
    if |segments| == 0 then Some([])
    else match ParsePeriod(segments[0])
      case None => None
      case Some(p) =>
        match ParsePeriods(segments[1..])
        case None => None
        case Some(rest) => Some([p] + rest)
  }

  /** The whole load of a stored schedule string: one pair per "|" segment,
      or `None` when any segment makes Kotlin throw. */
  function ParseSchedule(s: string): Option<seq<Period>>
  {
    ParsePeriods(Split(s, '|'))
  }

  /** An empty stored string is one empty segment, which does not parse. */
  lemma EmptyScheduleFails()
    ensures ParseSchedule("") == None
  {
    assert Split("", '|') == [""];
    assert Split("", '-') == [""];
    assert Split("", ':') == [""];
  }

  // ----- writing schedule strings -----

  /** "HH:MM" for a time given in minutes (two-digit hours). */
  function Clock(m: int): (s: string)
    requires 0 <= m < 6000
    ensures |s| == 5 && s[2] == ':'
  {
    Pad2(m / 60) + ":" + Pad2(m % 60)
  }

  predicate Encodable(ps: seq<Period>)
  {
    forall i :: 0 <= i < |ps| ==> 0 <= ps[i].start < 6000 && 0 <= ps[i].end < 6000
  }

  /** "HH:MM-HH:MM" for one period. */
  function Segment(p: Period): string
    requires 0 <= p.start < 6000 && 0 <= p.end < 6000
  {
    Clock(p.start) + "-" + Clock(p.end)
  }

  function Segments(ps: seq<Period>): (r: seq<string>)
    requires Encodable(ps)
    ensures |r| == |ps|
    ensures forall i :: 0 <= i < |ps| ==> r[i] == Segment(ps[i])
  {
    if |ps| == 0 then [] else [Segment(ps[0])] + Segments(ps[1..])
  }

  /** The canonical schedule string for a list of periods. */
  function EncodeSchedule(ps: seq<Period>): string
    requires Encodable(ps)
  {
    Join(Segments(ps), '|')
  }

  lemma ClockPieces(m: int)
    requires 0 <= m < 6000
    ensures Split(Clock(m), ':') == [Pad2(m / 60), Pad2(m % 60)]
    ensures '-' !in Clock(m) && '|' !in Clock(m)
  {
    var h, mm := Pad2(m / 60), Pad2(m % 60);
    assert Clock(m) == Join([h, mm], ':');
    assert ':' !in h && ':' !in mm;
    SplitJoin([h, mm], ':');
  }

  /** A clock string reads back as the minutes it was written from. */
  lemma ParseClock(m: int)
    requires 0 <= m < 6000
    ensures ParseStamp(Clock(m)) == Some(m)
  {
    ClockPieces(m);
    ParsePad2(m / 60);
    ParsePad2(m % 60);
  }

  lemma ParseSegment(p: Period)
    requires 0 <= p.start < 6000 && 0 <= p.end < 6000
    ensures ParsePeriod(Segment(p)) == Some(p)
    ensures '|' !in Segment(p)
  {
    var a, b := Clock(p.start), Clock(p.end);
    ClockPieces(p.start);
    ClockPieces(p.end);
    assert Segment(p) == Join([a, b], '-');
    SplitJoin([a, b], '-');
    ParseClock(p.start);
    ParseClock(p.end);
    var xs := [a, b];
    assert ParseStamp(xs[0]) == Some(p.start) && ParseStamp(xs[1]) == Some(p.end);
    var r := ParseStamps(xs);
    assert r.Some? && r.value[0] == p.start && r.value[1] == p.end;
  }

  /** Loading a schedule string written from a non-empty list of periods gives
      back exactly those periods, in order. */
  lemma ParseEncodeSchedule(ps: seq<Period>)
    requires Encodable(ps) && |ps| >= 1
    ensures ParseSchedule(EncodeSchedule(ps)) == Some(ps)
  {
    var segs := Segments(ps);
    forall i | 0 <= i < |segs| ensures '|' !in segs[i] && ParsePeriod(segs[i]) == Some(ps[i]) {
      ParseSegment(ps[i]);
    }
    SplitJoin(segs, '|');
    var r := ParsePeriods(segs);
    assert r.value == ps;
  }

  // ----- the server's "HHMM" pairs -----

  /** A `courseTimeBO` entry of the login reply. */
  datatype ServerPeriod = ServerPeriod(beginTimeStr: string, endTimeStr: string)

  /** `"${b.substring(0..1)}:${b.substring(2..3)}-${e.substring(0..1)}:${e.substring(2..3)}"`:
      `None` where `substring` throws on a string shorter than four characters. */
  function ServerSegment(p: ServerPeriod): Option<string>
  {
    if |p.beginTimeStr| < 4 || |p.endTimeStr| < 4 then None
    else Some(p.beginTimeStr[..2] + ":" + p.beginTimeStr[2..4] + "-" +
              p.endTimeStr[..2] + ":" + p.endTimeStr[2..4])
  }

  /** `filter { it.beginTimeStr.isNotEmpty() }`. */
  function KeptPeriods(ps: seq<ServerPeriod>): (r: seq<ServerPeriod>)
    ensures forall i :: 0 <= i < |r| ==> r[i] in ps && r[i].beginTimeStr != ""
    ensures forall p :: p in ps && p.beginTimeStr != "" ==> p in r
    ensures |r| <= |ps|
  {
    if |ps| == 0 then []
    else (if ps[0].beginTimeStr != "" then [ps[0]] else []) + KeptPeriods(ps[1..])
  }

  function ServerSegments(ps: seq<ServerPeriod>): (r: Option<seq<string>>)
    ensures r.Some? <==> forall i :: 0 <= i < |ps| ==> ServerSegment(ps[i]).Some?
    ensures r.Some? ==> |r.value| == |ps|
    ensures r.Some? ==> forall i :: 0 <= i < |ps| ==> ServerSegment(ps[i]) == Some(r.value[i])
  {
    if |ps| == 0 then Some([])
    else match ServerSegment(ps[0])
      case None => None
      case Some(s) =>
        match ServerSegments(ps[1..])
        case None => None
        case Some(rest) => Some([s] + rest)
  }

  /** The filter-then-`joinToString("|")` both revisions share. */
  function JoinServerPeriods(ps: seq<ServerPeriod>): Option<string>
  {
    match ServerSegments(KeptPeriods(ps))
    case None => None
    case Some(segs) => Some(Join(segs, '|'))
  }

  /** The fixed schedule the newer revision stores when the server sends no
      periods at all. */
  const DefaultSchedule: string := EncodeSchedule(DefaultPeriods())

  /** The newer revision's schedule string. */
  function ScheduleFromServer(ps: seq<ServerPeriod>): (r: Option<string>)
    ensures |ps| == 0 ==> r == Some(DefaultSchedule)
    ensures |ps| > 0 ==> r == JoinServerPeriods(ps)
  {
    if |ps| > 0 then JoinServerPeriods(ps) else Some(DefaultSchedule)
  }

  /** The older revision's schedule string: no default, so an empty period
      list gives the empty string. */
  function LegacyScheduleFromServer(ps: seq<ServerPeriod>): (r: Option<string>)
    ensures |ps| == 0 ==> r == Some("")
  {
    JoinServerPeriods(ps)
  }

  /** When the server sends periods but every `beginTimeStr` is empty, the
      newer revision stores "" as well: the default covers only an empty list. */
  lemma BlankServerPeriodsGiveEmpty(ps: seq<ServerPeriod>)
    requires |ps| > 0
    requires forall i :: 0 <= i < |ps| ==> ps[i].beginTimeStr == ""
    ensures ScheduleFromServer(ps) == Some("")
    ensures ParseSchedule(ScheduleFromServer(ps).value) == None
  {
    KeptNone(ps);
    EmptyScheduleFails();
  }

  lemma {:induction false} KeptNone(ps: seq<ServerPeriod>)
    requires forall i :: 0 <= i < |ps| ==> ps[i].beginTimeStr == ""
    ensures KeptPeriods(ps) == []
  {
    if |ps| > 0 {
      KeptNone(ps[1..]);
    }
  }

  /** "HHMM" for a time given in minutes: the server's format. */
  function ServerClock(m: int): (s: string)
    requires 0 <= m < 6000
    ensures |s| == 4
  {
    Pad2(m / 60) + Pad2(m % 60)
  }

  function ServerPeriodsOf(ps: seq<Period>): (r: seq<ServerPeriod>)
    requires Encodable(ps)
    ensures |r| == |ps|
    ensures forall i :: 0 <= i < |ps| ==>
      r[i] == ServerPeriod(ServerClock(ps[i].start), ServerClock(ps[i].end))
  {
    if |ps| == 0 then []
    else [ServerPeriod(ServerClock(ps[0].start), ServerClock(ps[0].end))] + ServerPeriodsOf(ps[1..])
  }

  /** Periods sent by the server as "HHMM" pairs are stored as their
      canonical string, in server order, by both revisions. */
  lemma JoinServerPeriodsOf(ps: seq<Period>)
    requires Encodable(ps)
    ensures JoinServerPeriods(ServerPeriodsOf(ps)) == Some(EncodeSchedule(ps))
  {
    var sp := ServerPeriodsOf(ps);
    KeptAll(sp);
    forall i | 0 <= i < |sp| ensures ServerSegment(sp[i]) == Some(Segment(ps[i])) {
      ServerSegmentOf(ps[i]);
    }
    var segs := ServerSegments(sp);
    assert segs.Some?;
    assert segs.value == Segments(ps);
  }

  /** A period sent as "HHMM" strings becomes its canonical "HH:MM-HH:MM". */
  lemma ServerSegmentOf(p: Period)
    requires 0 <= p.start < 6000 && 0 <= p.end < 6000
    ensures ServerSegment(ServerPeriod(ServerClock(p.start), ServerClock(p.end))) == Some(Segment(p))
  {
    var b, e := ServerClock(p.start), ServerClock(p.end);
    var x1, x2, y1, y2 := Pad2(p.start / 60), Pad2(p.start % 60), Pad2(p.end / 60), Pad2(p.end % 60);
    assert b[..2] == x1 && b[2..4] == x2;
    assert e[..2] == y1 && e[2..4] == y2;
    assert x1 + ":" + x2 + "-" + y1 + ":" + y2 == (x1 + ":" + x2) + "-" + (y1 + ":" + y2);
  }

  lemma {:induction false} KeptAll(ps: seq<ServerPeriod>)
    requires forall i :: 0 <= i < |ps| ==> ps[i].beginTimeStr != ""
    ensures KeptPeriods(ps) == ps
  {
    if |ps| > 0 {
      KeptAll(ps[1..]);
      assert [ps[0]] + ps[1..] == ps;
    }
  }

  /** The end-to-end round trip: what the server sends is what a later load
      of the stored schedule yields. */
  lemma ServerScheduleRoundTrip(ps: seq<Period>)
    requires Encodable(ps) && |ps| >= 1
    ensures ScheduleFromServer(ServerPeriodsOf(ps)).Some?
    ensures ParseSchedule(ScheduleFromServer(ServerPeriodsOf(ps)).value) == Some(ps)
    ensures LegacyScheduleFromServer(ServerPeriodsOf(ps)) == ScheduleFromServer(ServerPeriodsOf(ps))
  {
    JoinServerPeriodsOf(ps);
    ParseEncodeSchedule(ps);
  }

  // ----- manual correction -----

  /** A Kotlin `Pair<String, String>` of a manual correction. */
  datatype TextPair = TextPair(first: string, second: string)

  /** `newTimetable.joinToString("|") { "${it.first}-${it.second}" }`. */
  function ManualScheduleString(pairs: seq<TextPair>): string
  {
    Join(ManualSegments(pairs), '|')
  }

  function ManualSegments(pairs: seq<TextPair>): (r: seq<string>)
    ensures |r| == |pairs|
    ensures forall i :: 0 <= i < |pairs| ==> r[i] == pairs[i].first + "-" + pairs[i].second
  {
    if |pairs| == 0 then [] else [pairs[0].first + "-" + pairs[0].second] + ManualSegments(pairs[1..])
  }

  function ClockPairs(ps: seq<Period>): (r: seq<TextPair>)
    requires Encodable(ps)
    ensures |r| == |ps|
    ensures forall i :: 0 <= i < |ps| ==> r[i] == TextPair(Clock(ps[i].start), Clock(ps[i].end))
  {
    if |ps| == 0 then [] else [TextPair(Clock(ps[0].start), Clock(ps[0].end))] + ClockPairs(ps[1..])
  }

  /** A correction entered as "HH:MM" pairs is stored in the canonical form. */
  lemma ManualScheduleCanonical(ps: seq<Period>)
    requires Encodable(ps)
    ensures ManualScheduleString(ClockPairs(ps)) == EncodeSchedule(ps)
  {
  }

  /** So the next load of a manually corrected schedule yields the periods
      that were entered. */
  lemma ManualScheduleRoundTrip(ps: seq<Period>)
    requires Encodable(ps) && |ps| >= 1
    ensures ParseSchedule(ManualScheduleString(ClockPairs(ps))) == Some(ps)
  {
    ManualScheduleCanonical(ps);
    ParseEncodeSchedule(ps);
  }

  // ----- the default -----

  /** The periods of the default string "08:10-08:55|09:05-09:50|10:10-10:55|
      11:05-11:50|13:40-14:25|14:35-15:20|15:30-16:15|16:25-17:10|18:05-18:50|
      19:00-19:45|19:55-20:40|20:50-21:35", in minutes after midnight. */
  function DefaultPeriods(): (ps: seq<Period>)
    ensures Encodable(ps)
    ensures |ps| == 12
    ensures forall i :: 0 <= i < 12 ==> 0 <= ps[i].start < ps[i].end < 24 * 60
  {
    [Period(490, 535), Period(545, 590), Period(610, 655), Period(665, 710),
     Period(820, 865), Period(875, 920), Period(930, 975), Period(985, 1030),
     Period(1085, 1130), Period(1140, 1185), Period(1195, 1240), Period(1250, 1295)]
  }

  /** The default schedule loads back as its twelve periods. */
  lemma DefaultScheduleLoads()
    ensures ParseSchedule(DefaultSchedule) == Some(DefaultPeriods())
  {
    ParseEncodeSchedule(DefaultPeriods());
  }
}
