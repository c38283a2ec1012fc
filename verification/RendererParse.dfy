/** Reading a rendered history back: a lexer for the marker stream, a parser for its segments,
    and the round trip for contents that hold no marker. */
module RendererParse {
  import opened Basics
  import opened Renderer

  // ------------------------------------------------------------------- markers

  predicate PlainFrom(s: string, k: nat)
    decreases |s| - k
  {
    k >= |s| || (s[k] != '<' && s[k] != '\n' && PlainFrom(s, k + 1))
  }

  lemma {:induction false} PlainAt(s: string, k: nat, i: nat)
    requires PlainFrom(s, k) && k <= i < |s|
    ensures s[i] != '<' && s[i] != '\n'
    decreases |s| - k
  {
    if k < i {
      PlainAt(s, k + 1, i);
    }
  }

  lemma LongMarks()
    ensures PlainFrom(Text(Bos), 1) && PlainFrom(Text(Eos), 1)
  {
    var b, e := Text(Bos), Text(Eos);
    assert PlainFrom(b, 14) && PlainFrom(e, 14);
    assert PlainFrom(b, 7) && PlainFrom(e, 7);
  }

  /** A marker opens with '<' and has neither another one nor a line break. */
  lemma MarkShape(m: Mark)
    ensures |Text(m)| >= 3 && Text(m)[0] == '<'
    ensures forall i :: 1 <= i < |Text(m)| ==> Text(m)[i] != '<' && Text(m)[i] != '\n'
  {
    assert PlainFrom(Text(m), 1) by {
      match m {
        case Bos => LongMarks();
        case SystemMark => assert PlainFrom("<｜System｜>", 1);
        case UserMark => assert PlainFrom("<｜User｜>", 1);
        case AssistantMark => assert PlainFrom("<｜Assistant｜>", 1);
        case Eos => LongMarks();
        case Think => assert PlainFrom("<think>", 1);
        case EndThink => assert PlainFrom("</think>", 1);
      }
    }
    forall i | 1 <= i < |Text(m)| ensures Text(m)[i] != '<' && Text(m)[i] != '\n' {
      PlainAt(Text(m), 1, i);
    }
  }

  /** The second and third character tell the markers apart. */
  lemma MarksDiffer(m: Mark, n: Mark, s: string)
    requires Text(m) <= s && Text(n) <= s
    ensures m == n
  {
    MarkShape(m);
    MarkShape(n);
    assert s[1] == Text(m)[1] == Text(n)[1];
    assert s[2] == Text(m)[2] == Text(n)[2];
  }

  function MarkAt(s: string): (r: Option<Mark>)
    ensures r.Some? ==> Text(r.value) <= s
    ensures r.None? ==> forall m: Mark :: !(Text(m) <= s)
  {
    if Text(Bos) <= s then Some(Bos)
    else if Text(SystemMark) <= s then Some(SystemMark)
    else if Text(UserMark) <= s then Some(UserMark)
    else if Text(AssistantMark) <= s then Some(AssistantMark)
    else if Text(Eos) <= s then Some(Eos)
    else if Text(Think) <= s then Some(Think)
    else if Text(EndThink) <= s then Some(EndThink)
    else None
  }

  /** No marker occurs anywhere in t. */
  ghost predicate MarkerFree(t: string) {
    forall k: nat, m: Mark :: k <= |t| ==> !(Text(m) <= t[k..])
  }

  // --------------------------------------------------------------------- lexing

  /** Plain text before the first marker, and the segments from there on. */
  function Split(s: string): (string, seq<Seg>)
    decreases |s|
  {
    if s == "" then ("", [])
    else
      match MarkAt(s)
      case Some(m) =>
        MarkShape(m);
        var (t, rest) := Split(s[|Text(m)|..]);
        ("", [Seg(m, t)] + rest)
      case None =>
        var (t, rest) := Split(s[1..]);
        ([s[0]] + t, rest)
  }

  /** A marker never straddles the end of plain text and the start of the next marker. */
  lemma NoStraddle(t: string, x: string, m: Mark)
    requires t != "" && !(Text(m) <= t) && (x == "" || x[0] == '<')
    ensures !(Text(m) <= t + x)
  {
    MarkShape(m);
    var y := t + x;
    assert |Text(m)| <= |t| ==> y[..|Text(m)|] == t[..|Text(m)|];
    assert |t| < |Text(m)| ==> Text(m)[|t|] != '<';
    assert x != "" ==> y[|t|] == '<';
  }

  lemma SplitChar(y: string)
    requires y != "" && MarkAt(y).None?
    ensures Split(y) == ([y[0]] + Split(y[1..]).0, Split(y[1..]).1)
  {
    hide MarkAt;
  }

  lemma SplitAtMarker(x: string)
    requires x == "" || MarkAt(x).Some?
    ensures Split(x).0 == "" && (x != "" ==> x[0] == '<')
  {
    hide MarkAt;
    if x != "" {
      MarkShape(MarkAt(x).value);
    }
  }

  lemma NoMarkAhead(t: string, x: string)
    requires t != "" && MarkerFree(t) && (x == "" || x[0] == '<')
    ensures MarkAt(t + x).None?
  {
    hide MarkAt, Text;
    forall m: Mark ensures !(Text(m) <= t + x) {
      assert t[0..] == t;
      NoStraddle(t, x, m);
    }
  }

  lemma {:induction false} SplitText(t: string, x: string)
    requires MarkerFree(t) && (x == "" || MarkAt(x).Some?)
    ensures Split(t + x).0 == t && Split(t + x).1 == Split(x).1
    decreases |t|
  {
    hide Split, MarkerFree, MarkAt, Text;
    SplitAtMarker(x);
    if t == "" {
      assert t + x == x;
    } else {
      NoMarkAhead(t, x);
      SplitChar(t + x);
      assert (t + x)[1..] == t[1..] + x && (t + x)[0] == t[0];
      TailMarkerFree(t);
      SplitText(t[1..], x);
      assert [t[0]] + t[1..] == t;
    }
  }

  lemma TailMarkerFree(t: string)
    requires t != "" && MarkerFree(t)
    ensures MarkerFree(t[1..])
  {
    forall k: nat, m: Mark | k <= |t[1..]| ensures !(Text(m) <= t[1..][k..]) {
      assert t[1..][k..] == t[k + 1..];
    }
  }

  lemma SplitMark(m: Mark, x: string)
    ensures Split(Text(m) + x) == ("", [Seg(m, Split(x).0)] + Split(x).1)
  {
    MarkShape(m);
    var s := Text(m) + x;
    assert Text(m) <= s;
    MarksDiffer(m, MarkAt(s).value, s);
    assert s[|Text(m)|..] == x;
  }

  lemma {:induction false} FlattenFront(segs: seq<Seg>)
    requires segs != []
    ensures Flatten(segs) == (Text(segs[0].mark) + segs[0].text) + Flatten(segs[1..])
    decreases |segs|
  {
    hide Text;
    var k := |segs| - 1;
    var first, last := Text(segs[0].mark) + segs[0].text, Text(segs[k].mark) + segs[k].text;
    if k == 0 {
      assert segs[..0] == [] && segs[1..] == [];
      assert [] + first == first + [];
    } else {
      FlattenFront(segs[..k]);
      var mid := segs[1..][..k - 1];
      assert segs[..k][1..] == mid;
      assert Flatten(segs[1..]) == Flatten(mid) + last;
      assert Flatten(segs) == (first + Flatten(mid)) + last;
      assert (first + Flatten(mid)) + last == first + (Flatten(mid) + last);
    }
  }

  ghost predicate AllMarkerFree(segs: seq<Seg>) {
    forall i :: 0 <= i < |segs| ==> MarkerFree(segs[i].text)
  }

  /** The lexer undoes the flattening. */
  lemma {:induction false} SplitFlatten(segs: seq<Seg>)
    requires AllMarkerFree(segs)
    ensures Split(Flatten(segs)) == ("", segs)
    ensures segs != [] ==> MarkAt(Flatten(segs)).Some?
    decreases |segs|
  {
    hide Split, MarkerFree, Flatten;
    if segs == [] {
      EmptySplit();
    } else {
      var m, t, x := segs[0].mark, segs[0].text, Flatten(segs[1..]);
      SplitFlatten(segs[1..]);
      FlattenFront(segs);
      EmptyFlatten();
      SplitText(t, x);
      SplitMark(m, t + x);
      assert (Text(m) + t) + x == Text(m) + (t + x);
      assert [segs[0]] + segs[1..] == segs;
      assert Text(m) <= Flatten(segs);
    }
  }

  lemma EmptySplit()
    ensures Split(Flatten([])) == ("", [])
  {
  }

  lemma EmptyFlatten()
    ensures Flatten([]) == ""
  {
  }

  // ------------------------------------------------------------- turns and parsing

  /** What a reader of the rendered text can know of a message. */
  datatype Turn =
    | SystemTurn(text: string)
    | UserTurn(text: string)
    | AssistantTurn(reasoning: Option<string>, text: string)

  datatype Prompt = NoPrompt | PlainPrompt | ThinkPrompt

  function TurnSegs(t: Turn): seq<Seg> {
    match t
    case SystemTurn(c) => [Seg(SystemMark, c)]
    case UserTurn(c) => [Seg(UserMark, c)]
    case AssistantTurn(None, c) => [Seg(AssistantMark, ""), Seg(EndThink, c), Seg(Eos, "")]
    case AssistantTurn(Some(r), c) => [Seg(AssistantMark, ""), Seg(Think, r), Seg(EndThink, c), Seg(Eos, "")]
  }

  function PromptSegs(p: Prompt): seq<Seg> {
    match p
    case NoPrompt => []
    case PlainPrompt => [Seg(AssistantMark, ""), Seg(EndThink, "")]
    case ThinkPrompt => [Seg(AssistantMark, ""), Seg(Think, "")]
  }

  function TurnsSegs(ts: seq<Turn>): seq<Seg> {
    if ts == [] then [] else TurnSegs(ts[0]) + TurnsSegs(ts[1..])
  }

  datatype Parsed = Failed | History(turns: seq<Turn>, prompt: Prompt)

  function Prepend(t: Turn, p: Parsed): Parsed {
    if p.Failed? then Failed else History([t] + p.turns, p.prompt)
  }

  /** Reads turn after turn; an assistant turn is complete only with its end marker. */
  function ParseSegs(segs: seq<Seg>): Parsed
    decreases |segs|
  {
    if segs == [] then History([], NoPrompt)
    else match segs[0].mark
      case SystemMark => Prepend(SystemTurn(segs[0].text), ParseSegs(segs[1..]))
      case UserMark => Prepend(UserTurn(segs[0].text), ParseSegs(segs[1..]))
      case AssistantMark =>
        if |segs| >= 3 && segs[1].mark.EndThink? && segs[2].mark.Eos? then
          Prepend(AssistantTurn(None, segs[1].text), ParseSegs(segs[3..]))
        else if |segs| >= 4 && segs[1].mark.Think? && segs[2].mark.EndThink? && segs[3].mark.Eos? then
          Prepend(AssistantTurn(Some(segs[1].text), segs[2].text), ParseSegs(segs[4..]))
        else if |segs| == 2 && segs[1].mark.EndThink? then History([], PlainPrompt)
        else if |segs| == 2 && segs[1].mark.Think? then History([], ThinkPrompt)
        else Failed
      case _ => Failed
  }

  /** Reads a whole rendered text. */
  function ParseText(s: string): Parsed {
    var (lead, segs) := Split(s);
    if lead == "" && segs != [] && segs[0] == Seg(Bos, "") then ParseSegs(segs[1..]) else Failed
  }

  lemma {:induction false} ParseTurns(ts: seq<Turn>, p: Prompt)
    ensures ParseSegs(TurnsSegs(ts) + PromptSegs(p)) == History(ts, p)
    decreases |ts|
  {
    if ts == [] {
      assert TurnsSegs(ts) + PromptSegs(p) == PromptSegs(p);
    } else {
      var head, tail := TurnSegs(ts[0]), TurnsSegs(ts[1..]) + PromptSegs(p);
      ParseTurns(ts[1..], p);
      assert TurnsSegs(ts) + PromptSegs(p) == head + tail;
      ParseOneTurn(ts[0], tail);
      assert [ts[0]] + ts[1..] == ts;
    }
  }

  lemma ParseOneTurn(t: Turn, tail: seq<Seg>)
    ensures ParseSegs(TurnSegs(t) + tail) == Prepend(t, ParseSegs(tail))
  {
    hide ParseSegs, Prepend;
    match t {
      case SystemTurn(c) => ParseSystem(c, tail);
      case UserTurn(c) => ParseUser(c, tail);
      case AssistantTurn(None, c) => ParseClosed(c, tail);
      case AssistantTurn(Some(r), c) => ParseThought(r, c, tail);
    }
  }

  lemma ParseSystem(c: string, tail: seq<Seg>)
    ensures ParseSegs([Seg(SystemMark, c)] + tail) == Prepend(SystemTurn(c), ParseSegs(tail))
  {
    hide Prepend;
    assert ([Seg(SystemMark, c)] + tail)[1..] == tail;
  }

  lemma ParseUser(c: string, tail: seq<Seg>)
    ensures ParseSegs([Seg(UserMark, c)] + tail) == Prepend(UserTurn(c), ParseSegs(tail))
  {
    hide Prepend;
    assert ([Seg(UserMark, c)] + tail)[1..] == tail;
  }

  lemma ParseClosed(c: string, tail: seq<Seg>)
    ensures ParseSegs([Seg(AssistantMark, ""), Seg(EndThink, c), Seg(Eos, "")] + tail)
            == Prepend(AssistantTurn(None, c), ParseSegs(tail))
  {
    hide Prepend;
    assert ([Seg(AssistantMark, ""), Seg(EndThink, c), Seg(Eos, "")] + tail)[3..] == tail;
  }

  lemma ParseThought(r: string, c: string, tail: seq<Seg>)
    ensures ParseSegs([Seg(AssistantMark, ""), Seg(Think, r), Seg(EndThink, c), Seg(Eos, "")] + tail)
            == Prepend(AssistantTurn(Some(r), c), ParseSegs(tail))
  {
    hide Prepend;
    assert ([Seg(AssistantMark, ""), Seg(Think, r), Seg(EndThink, c), Seg(Eos, "")] + tail)[4..] == tail;
  }

  // --------------------------------------------------------------- the round trip

  predicate EndsWithUser(ts: seq<Turn>) {
    ts != [] && ts[|ts| - 1].UserTurn?
  }

  /** What stands before the first message: the numeric effort, as a system turn, or nothing. */
  function Opening(mode: Mode): seq<Turn>
    requires ValidMode(mode)
  {
    if mode.numeric.Some? then [SystemTurn(EffortText(mode.numeric.value))] else []
  }

  /** A system message at index i after the given turns; one at the very front continues the effort text. */
  function SystemAdded(before: seq<Turn>, c: string, i: nat, mode: Mode): seq<Turn>
    requires ValidMode(mode)
  {
    if i == 0 && mode.numeric.Some? then [SystemTurn(EffortText(mode.numeric.value) + c)] else before + [SystemTurn(c)]
  }

  /** The history as far as it can be read back: consecutive user messages joined by a blank
      line, developer as system, reasoning only where it is shown, the effort text in front. */
  function Normal(ms: seq<Message>, n: nat, mode: Mode, lastUser: int): seq<Turn>
    requires n <= |ms| && AllSupported(ms) && ValidMode(mode)
  {
    if n == 0 then Opening(mode) else Added(Normal(ms, n - 1, mode, lastUser), ms[n - 1], n - 1, mode, lastUser)
  }

  /** The turns with message i added. */
  function Added(before: seq<Turn>, m: Message, i: nat, mode: Mode, lastUser: int): seq<Turn>
    requires Supported(m) && ValidMode(mode)
  {
    var c := m.content.value;
    if IsSystem(m) then SystemAdded(before, c, i, mode)
    else if Role(m) == "user" then
      if EndsWithUser(before)
      then before[..|before| - 1] + [UserTurn((before[|before| - 1].text + "\n\n") + c)]
      else before + [UserTurn(c)]
    else before + [AssistantTurn(if mode.think && i > lastUser then Some(m.reasoning) else None, c)]
  }

  /** No assistant message follows another one or opens the history. */
  ghost predicate AssistantsPrompted(ms: seq<Message>, n: nat, mode: Mode, u: int)
    requires n <= |ms| && AllSupported(ms) && ValidMode(mode)
  {
    forall k :: 0 <= k < n && Role(ms[k]) == "assistant" ==> Run(ms, k, mode, u).pending
  }

  /** A turn is prompted when it follows a user message, or a system message that is not the first one. */
  lemma PendingMeans(ms: seq<Message>, k: nat, mode: Mode, u: int)
    requires k < |ms| && AllSupported(ms) && ValidMode(mode)
    ensures Run(ms, k, mode, u).pending <==>
            k > 0 && (ms[k - 1].role in ["", "user"] || (k > 1 && ms[k - 1].role in ["system", "developer"]))
  {
    hide AddText, AddMark, AssistantHead;
    if k > 0 {
      assert Supported(ms[k - 1]);
    }
  }

  /** The histories that read back: every assistant message comes right after such a message. */
  lemma PromptedMeans(ms: seq<Message>, mode: Mode, u: int)
    requires AllSupported(ms) && ValidMode(mode)
    ensures AssistantsPrompted(ms, |ms|, mode, u) <==>
            forall k :: 0 <= k < |ms| && ms[k].role == "assistant" ==>
              k > 0 && (ms[k - 1].role in ["", "user"] || (k > 1 && ms[k - 1].role in ["system", "developer"]))
  {
    hide Run;
    if AssistantsPrompted(ms, |ms|, mode, u) {
      forall k | 0 <= k < |ms| && ms[k].role == "assistant"
        ensures k > 0 && (ms[k - 1].role in ["", "user"] || (k > 1 && ms[k - 1].role in ["system", "developer"]))
      {
        assert Role(ms[k]) == "assistant" && Run(ms, k, mode, u).pending;
        PendingMeans(ms, k, mode, u);
      }
    } else {
      var k :| 0 <= k < |ms| && Role(ms[k]) == "assistant" && !Run(ms, k, mode, u).pending;
      PendingMeans(ms, k, mode, u);
      assert ms[k].role == "assistant";
    }
  }

  lemma {:induction false} TurnsSnoc(ts: seq<Turn>, t: Turn)
    ensures TurnsSegs(ts + [t]) == TurnsSegs(ts) + TurnSegs(t)
    decreases |ts|
  {
    hide TurnSegs;
    if ts == [] {
      assert ([] + [t])[1..] == [] && TurnsSegs([]) == [];
      assert TurnSegs(t) + [] == [] + TurnSegs(t);
    } else {
      TurnsSnoc(ts[1..], t);
      assert (ts + [t])[1..] == ts[1..] + [t];
      assert TurnSegs(ts[0]) + (TurnsSegs(ts[1..]) + TurnSegs(t))
             == (TurnSegs(ts[0]) + TurnsSegs(ts[1..])) + TurnSegs(t);
    }
  }

  function Whole(ts: seq<Turn>): (segs: seq<Seg>)
    ensures segs != []
  {
    [Seg(Bos, "")] + TurnsSegs(ts)
  }

  lemma WholeSnoc(ts: seq<Turn>, t: Turn)
    ensures Whole(ts + [t]) == Whole(ts) + TurnSegs(t)
  {
    TurnsSnoc(ts, t);
  }

  /** Adding a message to rendered turns renders the turns with it. */
  lemma StepIsTurn(ts: seq<Turn>, st: State, m: Message, i: nat, mode: Mode, u: int)
    requires Supported(m) && st.segs == Whole(ts) && (st.userOpen <==> EndsWithUser(ts))
    requires Role(m) != "user" && (Role(m) == "assistant" ==> st.pending)
    requires IsSystem(m) && i == 0 ==> mode.numeric.None?
    ensures var t := if IsSystem(m) then SystemTurn(m.content.value)
                     else AssistantTurn(if mode.think && i > u then Some(m.reasoning) else None, m.content.value);
            Step(st, m, i, mode, u).segs == Whole(ts + [t]) && !Step(st, m, i, mode, u).userOpen
  {
    hide Whole, EndsWithUser;
    var c := m.content.value;
    if IsSystem(m) {
      WholeSnoc(ts, SystemTurn(c));
      assert "" + c == c;
      assert AddText(AddMark(st.segs, SystemMark), c) == st.segs + [Seg(SystemMark, c)];
    } else {
      StepAssistant(st, m, i, mode, u);
      var shown := mode.think && i > u;
      WholeSnoc(ts, AssistantTurn(if shown then Some(m.reasoning) else None, c));
      AssistantSegs(st.segs, m, c, shown);
    }
  }

  /** A first system message continues the effort text. */
  lemma FirstSystem(st: State, m: Message, mode: Mode, u: int)
    requires Supported(m) && IsSystem(m) && ValidMode(mode) && mode.numeric.Some? && st == Initial(mode)
    ensures Step(st, m, 0, mode, u).segs == Whole(SystemAdded(Opening(mode), m.content.value, 0, mode))
    ensures !Step(st, m, 0, mode, u).userOpen
  {
    hide EffortText;
    var e, c := EffortText(mode.numeric.value), m.content.value;
    OneTurn(SystemTurn(e + c));
    assert AddText([Seg(Bos, ""), Seg(SystemMark, e)], c) == [Seg(Bos, ""), Seg(SystemMark, e + c)];
  }

  lemma OneTurn(t: Turn)
    ensures TurnsSegs([t]) == TurnSegs(t)
  {
    assert [t][1..] == [];
    assert TurnsSegs([]) == [];
  }

  lemma AssistantSegs(segs: seq<Seg>, m: Message, c: string, shown: bool)
    ensures AddMark(AddText(AssistantHead(segs, m, shown), c), Eos)
            == segs + TurnSegs(AssistantTurn(if shown then Some(m.reasoning) else None, c))
  {
    var a := AddMark(segs, AssistantMark);
    assert "" + c == c && "" + m.reasoning == m.reasoning;
    if shown {
      assert AddText(AddMark(a, Think), m.reasoning) == a + [Seg(Think, m.reasoning)];
      assert AddText(AssistantHead(segs, m, true), c) == a + [Seg(Think, m.reasoning), Seg(EndThink, c)];
    } else {
      assert AddText(AssistantHead(segs, m, false), c) == a + [Seg(EndThink, c)];
    }
  }

  lemma UserIsTurn(ts: seq<Turn>, st: State, m: Message, i: nat, mode: Mode, u: int)
    requires Supported(m) && st.segs == Whole(ts) && (st.userOpen <==> EndsWithUser(ts)) && Role(m) == "user"
    ensures var c := m.content.value;
            var ts' := if EndsWithUser(ts) then ts[..|ts| - 1] + [UserTurn((ts[|ts| - 1].text + "\n\n") + c)]
                       else ts + [UserTurn(c)];
            Step(st, m, i, mode, u).segs == Whole(ts') && Step(st, m, i, mode, u).userOpen && EndsWithUser(ts')
  {
    var c := m.content.value;
    if EndsWithUser(ts) {
      var k := |ts| - 1;
      var t, front := ts[k].text, Whole(ts[..k]);
      assert ts == ts[..k] + [UserTurn(t)];
      WholeSnoc(ts[..k], UserTurn(t));
      WholeSnoc(ts[..k], UserTurn((t + "\n\n") + c));
      assert AddText(front + [Seg(UserMark, t)], "\n\n") == front + [Seg(UserMark, t + "\n\n")];
      assert AddText(front + [Seg(UserMark, t + "\n\n")], c) == front + [Seg(UserMark, (t + "\n\n") + c)];
    } else {
      WholeSnoc(ts, UserTurn(c));
      assert "" + c == c;
      assert AddText(AddMark(st.segs, UserMark), c) == st.segs + [Seg(UserMark, c)];
    }
  }

  lemma PromptedBefore(ms: seq<Message>, n: nat, mode: Mode, u: int)
    requires 0 < n <= |ms| && AllSupported(ms) && ValidMode(mode) && AssistantsPrompted(ms, n, mode, u)
    ensures AssistantsPrompted(ms, n - 1, mode, u)
    ensures Role(ms[n - 1]) == "assistant" ==> Run(ms, n - 1, mode, u).pending
  {
    hide Run;
  }

  lemma RolesDiffer(m: Message)
    ensures IsSystem(m) ==> Role(m) != "user" && Role(m) != "assistant"
  {
  }

  /** The segments of a run are those of its normal history, in every mode. */
  lemma {:induction false} RunIsNormal(ms: seq<Message>, n: nat, mode: Mode, u: int)
    requires n <= |ms| && AllSupported(ms) && ValidMode(mode) && AssistantsPrompted(ms, n, mode, u)
    ensures Run(ms, n, mode, u).segs == Whole(Normal(ms, n, mode, u))
    ensures Run(ms, n, mode, u).userOpen <==> EndsWithUser(Normal(ms, n, mode, u))
    decreases n
  {
    hide Step, Whole, Opening, EffortText, AssistantsPrompted, Role, IsSystem, Supported;
    if n == 0 {
      EmptyRun(ms, mode, u);
    } else {
      PromptedBefore(ms, n, mode, u);
      RunIsNormal(ms, n - 1, mode, u);
      RolesDiffer(ms[n - 1]);
      var st, m, before := Run(ms, n - 1, mode, u), ms[n - 1], Normal(ms, n - 1, mode, u);
      if Role(m) == "user" {
        UserIsTurn(before, st, m, n - 1, mode, u);
      } else if IsSystem(m) && n == 1 && mode.numeric.Some? {
        FirstSystem(st, m, mode, u);
      } else {
        StepIsTurn(before, st, m, n - 1, mode, u);
      }
    }
  }

  lemma EmptyRun(ms: seq<Message>, mode: Mode, u: int)
    requires AllSupported(ms) && ValidMode(mode)
    ensures Run(ms, 0, mode, u) == State(Whole(Opening(mode)), false, false) && !EndsWithUser(Opening(mode))
  {
    hide EffortText;
    if mode.numeric.Some? {
      OneTurn(SystemTurn(EffortText(mode.numeric.value)));
    }
  }

  // ------------------------------------------------ marker-free texts stay marker-free

  ghost predicate CleanTurn(t: Turn) {
    MarkerFree(t.text) && (t.AssistantTurn? && t.reasoning.Some? ==> MarkerFree(t.reasoning.value))
  }

  ghost predicate CleanMessages(ms: seq<Message>) {
    forall i :: 0 <= i < |ms| ==>
      (ms[i].content.Some? ==> MarkerFree(ms[i].content.value)) && MarkerFree(ms[i].reasoning)
  }

  /** A blank line between two marker-free texts creates no marker. */
  lemma JoinMarkerFree(a: string, b: string)
    requires MarkerFree(a) && MarkerFree(b)
    ensures MarkerFree((a + "\n\n") + b)
  {
    var s := (a + "\n\n") + b;
    forall k: nat, m: Mark | k <= |s| ensures !(Text(m) <= s[k..]) {
      JoinAt(a, b, s, k, m);
    }
  }

  lemma JoinAt(a: string, b: string, s: string, k: nat, m: Mark)
    requires MarkerFree(a) && MarkerFree(b) && s == (a + "\n\n") + b && k <= |s|
    ensures !(Text(m) <= s[k..])
  {
    MarkShape(m);
    var t, x := Text(m), s[k..];
    if k >= |a| + 2 {
      assert x == b[k - |a| - 2..];
    } else if k >= |a| {
      assert x[0] == s[k] == '\n';
    } else {
      var d := |a| - k;
      assert x[d] == s[|a|] == '\n';
      assert |t| <= d ==> x[..|t|] == a[k..][..|t|];
      assert d < |t| ==> t[d] != '\n';
    }
  }

  lemma EmptyMarkerFree()
    ensures MarkerFree("")
  {
    forall k: nat, m: Mark | k <= 0 ensures !(Text(m) <= ""[k..]) {
      MarkShape(m);
    }
  }

  /** Every marker opens with '<', so a text without it in front of a marker-free one stays marker-free. */
  lemma PlainThenClean(a: string, b: string)
    requires '<' !in a && MarkerFree(b)
    ensures MarkerFree(a + b)
  {
    var s := a + b;
    forall k: nat, m: Mark | k <= |s| ensures !(Text(m) <= s[k..]) {
      MarkShape(m);
      if k < |a| {
        assert s[k..][0] == a[k];
      } else {
        assert s[k..] == b[k - |a|..];
      }
    }
  }

  lemma EffortPlain(level: nat)
    requires level == 75 || level == 100
    ensures '<' !in EffortText(level)
  {
    assert '<' !in "Reasoning Effort: ";
    assert '<' !in " (range 1-100, " && '<' !in "the higher the value, ";
    assert '<' !in "the more thorough " && '<' !in "the reasoning)\n\n";
  }

  lemma OpeningClean(mode: Mode, c: string)
    requires ValidMode(mode) && MarkerFree(c)
    ensures mode.numeric.Some? ==> MarkerFree(EffortText(mode.numeric.value) + c)
    ensures AllClean(Opening(mode))
  {
    hide EffortText, MarkerFree;
    if mode.numeric.Some? {
      var e := EffortText(mode.numeric.value);
      EffortPlain(mode.numeric.value);
      PlainThenClean(e, c);
      EmptyMarkerFree();
      PlainThenClean(e, "");
      assert e + "" == e;
    }
  }

  ghost predicate AllClean(ts: seq<Turn>) {
    forall i :: 0 <= i < |ts| ==> CleanTurn(ts[i])
  }

  lemma AddedClean(before: seq<Turn>, m: Message, i: nat, mode: Mode, u: int)
    requires Supported(m) && ValidMode(mode) && AllClean(before)
    requires MarkerFree(m.content.value) && MarkerFree(m.reasoning)
    ensures AllClean(Added(before, m, i, mode, u))
  {
    hide MarkerFree, EffortText, Opening, Role, IsSystem;
    OpeningClean(mode, m.content.value);
    if EndsWithUser(before) {
      assert CleanTurn(before[|before| - 1]);
      JoinMarkerFree(before[|before| - 1].text, m.content.value);
    }
  }

  lemma {:induction false} NormalClean(ms: seq<Message>, n: nat, mode: Mode, u: int)
    requires n <= |ms| && AllSupported(ms) && CleanMessages(ms) && ValidMode(mode)
    ensures AllClean(Normal(ms, n, mode, u))
    decreases n
  {
    hide MarkerFree, EffortText, Opening, Added, AllClean, Role;
    if n == 0 {
      EmptyMarkerFree();
      OpeningClean(mode, "");
    } else {
      NormalClean(ms, n - 1, mode, u);
      AddedClean(Normal(ms, n - 1, mode, u), ms[n - 1], n - 1, mode, u);
    }
  }

  lemma {:induction false} CleanSegs(ts: seq<Turn>)
    requires AllClean(ts)
    ensures AllMarkerFree(TurnsSegs(ts))
    decreases |ts|
  {
    hide MarkerFree;
    if ts != [] {
      EmptyMarkerFree();
      assert CleanTurn(ts[0]);
      CleanSegs(ts[1..]);
      assert AllMarkerFree(TurnSegs(ts[0]));
    }
  }

  function PromptOf(st: State, mode: Mode, addPrompt: bool): Prompt {
    if st.pending && addPrompt then (if mode.think then ThinkPrompt else PlainPrompt) else NoPrompt
  }

  /** Round trip, in every mode: a rendered history of marker-free texts whose assistant turns are all
      prompted reads back as its normal form, and the generation prompt is recognised. */
  lemma RoundTrip(ms: seq<Message>, mode: Mode, addPrompt: bool)
    requires AllSupported(ms) && ValidMode(mode) && CleanMessages(ms)
    requires AssistantsPrompted(ms, |ms|, mode, LastUser(ms))
    ensures ParseText(Rendered(ms, mode, addPrompt))
            == History(Normal(ms, |ms|, mode, LastUser(ms)), PromptOf(Body(ms, mode), mode, addPrompt))
  {
    hide Flatten, Split, ParseSegs, AllMarkerFree, TurnsSegs, PromptSegs, PromptOf, Normal, Run, WithPrompt, AllClean,
         CleanMessages, AssistantsPrompted, LastUser;
    var u := LastUser(ms);
    var ts, p := Normal(ms, |ms|, mode, u), PromptOf(Body(ms, mode), mode, addPrompt);
    RunIsNormal(ms, |ms|, mode, u);
    NormalClean(ms, |ms|, mode, u);
    CleanSegs(ts);
    var segs := [Seg(Bos, "")] + (TurnsSegs(ts) + PromptSegs(p));
    PromptAdded(Body(ms, mode), mode, addPrompt);
    assert ([Seg(Bos, "")] + TurnsSegs(ts)) + PromptSegs(p) == segs;
    PromptedClean(TurnsSegs(ts), p);
    SplitFlatten(segs);
    assert segs[1..] == TurnsSegs(ts) + PromptSegs(p);
    ParseTurns(ts, p);
  }

  lemma PromptAdded(st: State, mode: Mode, addPrompt: bool)
    requires st.segs != []
    ensures WithPrompt(st, mode, addPrompt) == st.segs + PromptSegs(PromptOf(st, mode, addPrompt))
  {
  }

  lemma PromptedClean(body: seq<Seg>, p: Prompt)
    requires AllMarkerFree(body)
    ensures AllMarkerFree([Seg(Bos, "")] + (body + PromptSegs(p)))
  {
    hide MarkerFree;
    EmptyMarkerFree();
    assert AllMarkerFree(PromptSegs(p));
  }
}
