/** The chat renderer: think-mode resolution, one pass over the messages, and what keeps a
    re-rendered history equal to the generated one. */
module Renderer {
  import opened Basics

  // ------------------------------------------------------------ think-mode controls

  datatype Control =
    | Thinking(value: Option<bool>)
    | ReasoningEffort(effort: Option<string>)
    | TemplateKwargs(enable: Option<bool>, effort: Option<string>)

  datatype Mode = Mode(think: bool, numeric: Option<nat>)

  datatype ModeResult = Resolved(name: string, mode: Mode) | Unsupported(effort: string)

  /** The last control that says anything about thinking decides; the default is enabled. */
  function Enabled(cs: seq<Control>): bool {
    if cs == [] then true else
      var c, before := cs[|cs| - 1], Enabled(cs[..|cs| - 1]);
      match c
      case Thinking(v) => if v.Some? then v.value else before
      case TemplateKwargs(v, _) => if v.Some? then v.value else before
      case ReasoningEffort(_) => before
  }

  /** The last named effort decides; the default is high. */
  function Effort(cs: seq<Control>): string {
    if cs == [] then "high" else
      var c, before := cs[|cs| - 1], Effort(cs[..|cs| - 1]);
      match c
      case Thinking(_) => before
      case TemplateKwargs(_, e) => if e.Some? then e.value else before
      case ReasoningEffort(e) => if e.Some? then e.value else before
  }

  function Alias(effort: string): string {
    if effort == "xhigh" then "high" else if effort == "minimal" then "low" else effort
  }

  /** Only named high and max render a numeric effort. */
  function Numeric(name: string): Option<nat> {
    if name == "high" then Some(75) else if name == "max" then Some(100) else None
  }

  predicate ValidMode(mode: Mode) {
    mode.numeric.Some? ==> mode.think && (mode.numeric.value == 75 || mode.numeric.value == 100)
  }

  method ResolveThinkMode(cs: seq<Control>) returns (r: ModeResult)
    ensures r.Unsupported? <==> Alias(Effort(cs)) !in ["none", "low", "medium", "high", "max"]
    ensures r.Resolved? ==> (r.mode.think <==> Enabled(cs) && Alias(Effort(cs)) != "none")
    ensures r.Resolved? ==> r.name == (if r.mode.think then Alias(Effort(cs)) else "none")
    ensures r.Resolved? ==> r.mode.numeric == Numeric(r.name) && ValidMode(r.mode)
    ensures r.Unsupported? <==> Effort(cs) !in ["none", "low", "minimal", "medium", "high", "xhigh", "max"]
    ensures r.Unsupported? ==> r.effort == Effort(cs)
    ensures r.Resolved? && (!Enabled(cs) || Effort(cs) == "none") ==> r == Resolved("none", Mode(false, None))
    ensures r.Resolved? && Enabled(cs) && Effort(cs) in ["high", "xhigh"] ==>
              r == Resolved("high", Mode(true, Some(75)))
    ensures r.Resolved? && Enabled(cs) && Effort(cs) == "max" ==> r == Resolved("max", Mode(true, Some(100)))
    ensures r.Resolved? && Enabled(cs) && Effort(cs) in ["low", "minimal"] ==> r == Resolved("low", Mode(true, None))
    ensures r.Resolved? && Enabled(cs) && Effort(cs) == "medium" ==> r == Resolved("medium", Mode(true, None))
  {
    var enabled, effort := true, "high";
    for i := 0 to |cs|
      invariant enabled == Enabled(cs[..i]) && effort == Effort(cs[..i])
    {
      assert cs[..i + 1][..i] == cs[..i];
      match cs[i] {
        case Thinking(v) => if v.Some? { enabled := v.value; }
        case ReasoningEffort(e) => if e.Some? { effort := e.value; }
        case TemplateKwargs(v, e) =>
          if v.Some? { enabled := v.value; }
          if e.Some? { effort := e.value; }
      }
    }
    assert cs[..|cs|] == cs;
    effort := Alias(effort);
    if effort !in ["none", "low", "medium", "high", "max"] {
      return Unsupported(effort);
    }
    if !enabled || effort == "none" {
      return Resolved("none", Mode(false, None));
    }
    return Resolved(effort, Mode(true, Numeric(effort)));
  }

  /** The last control that switches thinking on or off has its way; with none it is on. */
  lemma {:induction false} LastSwitch(before: seq<Control>, c: Control, after: seq<Control>, v: bool)
    requires c == Thinking(Some(v)) || (c.TemplateKwargs? && c.enable == Some(v))
    requires forall x :: x in after ==>
               x.ReasoningEffort? || x == Thinking(None) || (x.TemplateKwargs? && x.enable == None)
    ensures Enabled(before + [c] + after) == v && Enabled(after)
    decreases |after|
  {
    var all := before + [c] + after;
    if after == [] {
      assert all[..|all| - 1] == before && all[|all| - 1] == c;
    } else {
      var front := after[..|after| - 1];
      assert all[..|all| - 1] == before + [c] + front && all[|all| - 1] == after[|after| - 1];
      assert after[|after| - 1] in after;
      LastSwitch(before, c, front, v);
    }
  }

  /** The last control that names an effort has its way; with none it is high. */
  lemma {:induction false} LastEffort(before: seq<Control>, c: Control, after: seq<Control>, e: string)
    requires c == ReasoningEffort(Some(e)) || (c.TemplateKwargs? && c.effort == Some(e))
    requires forall x :: x in after ==>
               x.Thinking? || x == ReasoningEffort(None) || (x.TemplateKwargs? && x.effort == None)
    ensures Effort(before + [c] + after) == e && Effort(after) == "high"
    decreases |after|
  {
    var all := before + [c] + after;
    if after == [] {
      assert all[..|all| - 1] == before && all[|all| - 1] == c;
    } else {
      var front := after[..|after| - 1];
      assert all[..|all| - 1] == before + [c] + front && all[|all| - 1] == after[|after| - 1];
      assert after[|after| - 1] in after;
      LastEffort(before, c, front, e);
    }
  }

  // -------------------------------------------------------------- marked segments

  datatype Mark = Bos | SystemMark | UserMark | AssistantMark | Eos | Think | EndThink

  function Text(m: Mark): string {
    match m
    case Bos => "<｜begin▁of▁sentence｜>"
    case SystemMark => "<｜System｜>"
    case UserMark => "<｜User｜>"
    case AssistantMark => "<｜Assistant｜>"
    case Eos => "<｜end▁of▁sentence｜>"
    case Think => "<think>"
    case EndThink => "</think>"
  }

  /** A marker and the plain text up to the next one. */
  datatype Seg = Seg(mark: Mark, text: string)

  function Flatten(segs: seq<Seg>): string {
    if segs == [] then [] else
      Flatten(segs[..|segs| - 1]) + (Text(segs[|segs| - 1].mark) + segs[|segs| - 1].text)
  }

  /** Plain text continues the last segment. */
  function AddText(segs: seq<Seg>, t: string): (r: seq<Seg>)
    requires segs != []
    ensures r != [] && |r| == |segs|
  {
    var k := |segs| - 1;
    segs[..k] + [Seg(segs[k].mark, segs[k].text + t)]
  }

  function AddMark(segs: seq<Seg>, m: Mark): seq<Seg> {
    segs + [Seg(m, "")]
  }

  lemma FlattenMark(segs: seq<Seg>, m: Mark)
    ensures Flatten(AddMark(segs, m)) == Flatten(segs) + Text(m)
  {
    assert AddMark(segs, m)[..|segs|] == segs;
    assert Text(m) + "" == Text(m);
  }

  lemma FlattenText(segs: seq<Seg>, t: string)
    requires segs != []
    ensures Flatten(AddText(segs, t)) == Flatten(segs) + t
  {
    var k := |segs| - 1;
    var a, m, u := Flatten(segs[..k]), Text(segs[k].mark), segs[k].text;
    assert AddText(segs, t)[..k] == segs[..k];
    assert a + (m + (u + t)) == (a + (m + u)) + t;
  }

  // ------------------------------------------------------------------- messages

  /** content is None when it is not a string; an empty role means user. */
  datatype Message = Message(role: string, content: Option<string>, reasoning: string)

  function Role(m: Message): string {
    if m.role == "" then "user" else m.role
  }

  predicate IsSystem(m: Message) {
    Role(m) == "system" || Role(m) == "developer"
  }

  /** Message i starts a new exchange: everything before it is history. */
  predicate CountsAsUser(ms: seq<Message>, i: nat)
    requires i < |ms|
  {
    Role(ms[i]) in ["user", "tool", "function"] || (i > 0 && IsSystem(ms[i]))
  }

  /** Index of the last such message, or -1. */
  function LastUser(ms: seq<Message>): (u: int)
    ensures -1 <= u < |ms|
  {
    if ms == [] then -1
    else if CountsAsUser(ms, |ms| - 1) then |ms| - 1
    else LastUser(ms[..|ms| - 1])
  }

  datatype State = State(segs: seq<Seg>, pending: bool, userOpen: bool)

  function EffortText(level: nat): string
    requires level == 75 || level == 100
  {
    "Reasoning Effort: " + (if level == 75 then "75" else "100")
    + (" (range 1-100, " + "the higher the value, " + "the more thorough " + "the reasoning)\n\n")
  }

  function Initial(mode: Mode): (st: State)
    requires ValidMode(mode)
    ensures st.segs != []
  {
    State([Seg(Bos, "")] + (if mode.numeric.Some? then [Seg(SystemMark, EffortText(mode.numeric.value))] else []),
          false, false)
  }

  /** An assistant turn reached with pending opens a marked turn; its reasoning is shown only
      when thinking is on and the turn comes after the last user. */
  function AssistantHead(segs: seq<Seg>, m: Message, shown: bool): (r: seq<Seg>)
    ensures r != []
  {
    var a := AddMark(segs, AssistantMark);
    AddMark(if shown then AddText(AddMark(a, Think), m.reasoning) else a, EndThink)
  }

  predicate Supported(m: Message) {
    m.content.Some? && Role(m) in ["system", "developer", "user", "assistant"]
  }

  /** One message, at index i, with lastUser taken from the whole history. */
  function Step(st: State, m: Message, i: nat, mode: Mode, lastUser: int): (next: State)
    requires Supported(m) && st.segs != []
    ensures next.segs != []
  {
    var c := m.content.value;
    if IsSystem(m) then
      var base := if i == 0 && mode.numeric.Some? then st.segs else AddMark(st.segs, SystemMark);
      State(AddText(base, c), i > 0, false)
    else if Role(m) == "user" then
      var base := if st.userOpen then AddText(st.segs, "\n\n") else AddMark(st.segs, UserMark);
      State(AddText(base, c), true, true)
    else
      var base := if st.pending then AssistantHead(st.segs, m, mode.think && i > lastUser) else st.segs;
      State(AddMark(AddText(base, c), Eos), false, false)
  }

  lemma SupportedMeans(m: Message)
    ensures Supported(m) <==> m.content.Some? && m.role in ["", "system", "developer", "user", "assistant"]
    ensures !Supported(m) && m.content.Some? ==> Role(m) == m.role
  {
  }

  predicate AllSupported(ms: seq<Message>) {
    forall i :: 0 <= i < |ms| ==> Supported(ms[i])
  }

  /** The state after the first n messages. */
  function Run(ms: seq<Message>, n: nat, mode: Mode, lastUser: int): (st: State)
    requires n <= |ms| && AllSupported(ms) && ValidMode(mode)
    ensures st.segs != []
  {
    if n == 0 then Initial(mode) else Step(Run(ms, n - 1, mode, lastUser), ms[n - 1], n - 1, mode, lastUser)
  }

  function Body(ms: seq<Message>, mode: Mode): State
    requires AllSupported(ms) && ValidMode(mode)
  {
    Run(ms, |ms|, mode, LastUser(ms))
  }

  function WithPrompt(st: State, mode: Mode, addPrompt: bool): (segs: seq<Seg>)
    requires st.segs != []
    ensures segs != []
  {
    if st.pending && addPrompt then
      AddMark(AddMark(st.segs, AssistantMark), if mode.think then Think else EndThink)
    else st.segs
  }

  /** The rendered text. */
  function Rendered(ms: seq<Message>, mode: Mode, addPrompt: bool): string
    requires AllSupported(ms) && ValidMode(mode)
  {
    Flatten(WithPrompt(Body(ms, mode), mode, addPrompt))
  }

  // -------------------------------------------------------- the same in plain text

  /** The last message of a user, a tool or a function, or of the system when it is not the first message: from
      there on reasoning is shown. */
  lemma {:induction false} LastUserMeans(ms: seq<Message>, i: nat)
    requires i < |ms|
    ensures i > LastUser(ms) ==>
              ms[i].role !in ["", "user", "tool", "function"] && (i > 0 ==> ms[i].role !in ["system", "developer"])
    ensures i == LastUser(ms) ==>
              ms[i].role in ["", "user", "tool", "function"] || (i > 0 && ms[i].role in ["system", "developer"])
  {
    if i < |ms| - 1 && !CountsAsUser(ms, |ms| - 1) {
      LastUserMeans(ms[..|ms| - 1], i);
    }
  }

  /** The markers. */
  lemma MarkTexts()
    ensures Text(Bos) == "<｜begin▁of▁sentence｜>" && Text(Eos) == "<｜end▁of▁sentence｜>"
    ensures Text(SystemMark) == "<｜System｜>" && Text(UserMark) == "<｜User｜>"
    ensures Text(AssistantMark) == "<｜Assistant｜>" && Text(Think) == "<think>" && Text(EndThink) == "</think>"
  {
  }

  /** What one message adds to the text, and how it leaves the flags. */
  lemma RunText(ms: seq<Message>, n: nat, mode: Mode, lastUser: int, c: string)
    requires n < |ms| && AllSupported(ms) && ValidMode(mode) && ms[n].content == Some(c)
    ensures var st, next, role := Run(ms, n, mode, lastUser), Run(ms, n + 1, mode, lastUser), ms[n].role;
            role in ["system", "developer", "", "user", "assistant"] &&
            (role in ["system", "developer"] ==>
               next.pending == (n > 0) && !next.userOpen &&
               Flatten(next.segs) ==
                 Flatten(st.segs) + (if n == 0 && mode.numeric != None then c else Text(SystemMark) + c)) &&
            (role in ["", "user"] ==>
               next.pending && next.userOpen &&
               Flatten(next.segs) == Flatten(st.segs) + (if st.userOpen then "\n\n" + c else Text(UserMark) + c)) &&
            (role == "assistant" ==>
               !next.pending && !next.userOpen &&
               Flatten(next.segs) ==
                 Flatten(st.segs) + ((if !st.pending then ""
                                      else if mode.think && n > lastUser then
                                        Text(AssistantMark) + (Text(Think) + ms[n].reasoning) + Text(EndThink)
                                      else Text(AssistantMark) + Text(EndThink)) + (c + Text(Eos))))
  {
    hide Flatten, Text;
    assert Supported(ms[n]);
    var st, m := Run(ms, n, mode, lastUser), ms[n];
    if IsSystem(m) {
      SystemText(st, c, n == 0 && mode.numeric.Some?);
    } else if Role(m) == "user" {
      UserText(st, c);
    } else {
      AssistantText(st, m, c, mode.think && n > lastUser);
    }
  }

  lemma SystemText(st: State, c: string, joined: bool)
    requires st.segs != []
    ensures Flatten(AddText(if joined then st.segs else AddMark(st.segs, SystemMark), c)) ==
            Flatten(st.segs) + (if joined then c else Text(SystemMark) + c)
  {
    hide Flatten, Text, AddText;
    FlattenMark(st.segs, SystemMark);
    FlattenText(if joined then st.segs else AddMark(st.segs, SystemMark), c);
  }

  lemma UserText(st: State, c: string)
    requires st.segs != []
    ensures Flatten(AddText(if st.userOpen then AddText(st.segs, "\n\n") else AddMark(st.segs, UserMark), c)) ==
            Flatten(st.segs) + (if st.userOpen then "\n\n" + c else Text(UserMark) + c)
  {
    hide Flatten, Text, AddText;
    FlattenText(st.segs, "\n\n");
    FlattenMark(st.segs, UserMark);
    FlattenText(if st.userOpen then AddText(st.segs, "\n\n") else AddMark(st.segs, UserMark), c);
  }

  lemma AssistantText(st: State, m: Message, c: string, shown: bool)
    requires st.segs != []
    ensures var base := if st.pending then AssistantHead(st.segs, m, shown) else st.segs;
            Flatten(AddMark(AddText(base, c), Eos)) ==
              Flatten(st.segs) + ((if !st.pending then ""
                                   else if shown then
                                     Text(AssistantMark) + (Text(Think) + m.reasoning) + Text(EndThink)
                                   else Text(AssistantMark) + Text(EndThink)) + (c + Text(Eos)))
  {
    hide Flatten, Text, AddText, AddMark, AssistantHead;
    HeadText(st.segs, m, shown);
    var base := if st.pending then AssistantHead(st.segs, m, shown) else st.segs;
    FlattenText(base, c);
    FlattenMark(AddText(base, c), Eos);
  }

  lemma HeadText(segs: seq<Seg>, m: Message, shown: bool)
    ensures Flatten(AssistantHead(segs, m, shown)) ==
            Flatten(segs) + (if shown then Text(AssistantMark) + (Text(Think) + m.reasoning) + Text(EndThink)
                             else Text(AssistantMark) + Text(EndThink))
  {
    hide Flatten, Text;
    var a := AddMark(segs, AssistantMark);
    FlattenMark(segs, AssistantMark);
    FlattenMark(a, Think);
    FlattenText(AddMark(a, Think), m.reasoning);
    FlattenMark(AddText(AddMark(a, Think), m.reasoning), EndThink);
    FlattenMark(a, EndThink);
  }

  /** The whole rendering: the beginning, with the numeric effort in a system turn of its own; the messages; and the
      generation prompt when a turn is due. */
  lemma RenderedText(ms: seq<Message>, mode: Mode, addPrompt: bool)
    requires AllSupported(ms) && ValidMode(mode)
    ensures var st := Run(ms, |ms|, mode, LastUser(ms));
            Rendered(ms, mode, addPrompt) ==
              Flatten(st.segs)
              + (if !(st.pending && addPrompt) then ""
                 else Text(AssistantMark) + (if mode.think then Text(Think) else Text(EndThink)))
    ensures var st := Run(ms, 0, mode, LastUser(ms));
            !st.pending && !st.userOpen &&
            Flatten(st.segs) ==
              (if mode.numeric == None then Text(Bos)
               else Text(Bos) + (Text(SystemMark) + EffortText(mode.numeric.value)))
  {
    hide Flatten, Text, EffortText, AddMark, Run, WithPrompt;
    PromptText(Body(ms, mode), mode, addPrompt);
    BeginText(ms, mode);
  }

  lemma BeginText(ms: seq<Message>, mode: Mode)
    requires AllSupported(ms) && ValidMode(mode)
    ensures var st := Run(ms, 0, mode, LastUser(ms));
            !st.pending && !st.userOpen &&
            Flatten(st.segs) ==
              (if mode.numeric == None then Text(Bos)
               else Text(Bos) + (Text(SystemMark) + EffortText(mode.numeric.value)))
  {
    hide Flatten, Text, EffortText;
    InitialText(mode);
  }

  lemma PromptText(st: State, mode: Mode, addPrompt: bool)
    requires st.segs != []
    ensures Flatten(WithPrompt(st, mode, addPrompt)) ==
            Flatten(st.segs)
            + (if !(st.pending && addPrompt) then ""
               else Text(AssistantMark) + (if mode.think then Text(Think) else Text(EndThink)))
  {
    hide Flatten, Text;
    assert Flatten(st.segs) + "" == Flatten(st.segs);
    FlattenMark(st.segs, AssistantMark);
    FlattenMark(AddMark(st.segs, AssistantMark), if mode.think then Think else EndThink);
  }

  /** The numeric effort text names 75 or 100. */
  lemma EffortTexts(level: nat)
    requires level == 75 || level == 100
    ensures EffortText(level) ==
            "Reasoning Effort: " + (if level == 75 then "75" else "100") +
            (" (range 1-100, the higher the value, " + "the more thorough the reasoning)\n\n")
  {
    assert " (range 1-100, " + "the higher the value, " == " (range 1-100, the higher the value, ";
    assert "the more thorough " + "the reasoning)\n\n" == "the more thorough the reasoning)\n\n";
  }

  // ---------------------------------------------------------------- the renderer

  method FindLastUser(ms: seq<Message>) returns (lastUser: int)
    ensures lastUser == LastUser(ms)
  {
    lastUser := -1;
    for i := 0 to |ms|
      invariant lastUser == LastUser(ms[..i])
    {
      assert ms[..i + 1][..i] == ms[..i];
      var role := Role(ms[i]);
      if role in ["user", "tool", "function"] || (i > 0 && (role == "system" || role == "developer")) {
        lastUser := i;
      }
    }
    assert ms[..|ms|] == ms;
  }

  datatype RenderResult = Output(out: string) | NotText | UnsupportedRole(role: string)

  /** Renders one supported message onto the output. */
  method RenderMessage(out: string, pending: bool, userOpen: bool, m: Message, i: nat, initialSystem: bool,
                       mode: Mode, lastUser: int, ghost st: State)
    returns (out': string, pending': bool, userOpen': bool)
    requires Supported(m) && st.segs != [] && initialSystem == mode.numeric.Some?
    requires out == Flatten(st.segs) && pending == st.pending && userOpen == st.userOpen
    ensures out' == Flatten(Step(st, m, i, mode, lastUser).segs)
    ensures pending' == Step(st, m, i, mode, lastUser).pending
    ensures userOpen' == Step(st, m, i, mode, lastUser).userOpen
  {
    hide Flatten;
    out' := out;
    ghost var segs := st.segs;
    var role, content := Role(m), m.content.value;
    if role == "system" || role == "developer" {
      if !(i == 0 && initialSystem) {
        FlattenMark(segs, SystemMark);
        segs := AddMark(segs, SystemMark);
        out' := out' + Text(SystemMark);
      }
      FlattenText(segs, content);
      out' := out' + content;
      pending', userOpen' := i > 0, false;
    } else if role == "user" {
      if userOpen {
        FlattenText(segs, "\n\n");
        segs := AddText(segs, "\n\n");
        out' := out' + "\n\n";
      } else {
        FlattenMark(segs, UserMark);
        segs := AddMark(segs, UserMark);
        out' := out' + Text(UserMark);
      }
      FlattenText(segs, content);
      out' := out' + content;
      pending', userOpen' := true, true;
    } else {
      if pending {
        FlattenMark(segs, AssistantMark);
        segs := AddMark(segs, AssistantMark);
        out' := out' + Text(AssistantMark);
        if mode.think && i > lastUser {
          FlattenMark(segs, Think);
          segs := AddMark(segs, Think);
          FlattenText(segs, m.reasoning);
          segs := AddText(segs, m.reasoning);
          out' := out' + Text(Think) + m.reasoning;
        }
        FlattenMark(segs, EndThink);
        segs := AddMark(segs, EndThink);
        out' := out' + Text(EndThink);
      }
      FlattenText(segs, content);
      FlattenMark(AddText(segs, content), Eos);
      out' := out' + content + Text(Eos);
      pending', userOpen' := false, false;
    }
  }

  predicate FirstUnsupported(ms: seq<Message>, i: nat) {
    i < |ms| && AllSupported(ms[..i]) && !Supported(ms[i])
  }

  lemma FirstUnsupportedMeans(ms: seq<Message>, i: nat)
    ensures FirstUnsupported(ms, i) <==>
            && i < |ms|
            && (forall j :: 0 <= j < i ==>
                  ms[j].content.Some? && ms[j].role in ["", "system", "developer", "user", "assistant"])
            && (ms[i].content.None? || ms[i].role !in ["", "system", "developer", "user", "assistant"])
  {
    forall j | 0 <= j < |ms|
      ensures Supported(ms[j]) <==>
              ms[j].content.Some? && ms[j].role in ["", "system", "developer", "user", "assistant"]
    {
      SupportedMeans(ms[j]);
    }
    hide Supported;
    assert i < |ms| ==> forall j :: 0 <= j < i ==> ms[..i][j] == ms[j];
  }

  /** The whole rendering; it fails exactly on a message it does not support. */
  method Render(ms: seq<Message>, mode: Mode, addPrompt: bool) returns (r: RenderResult)
    requires ValidMode(mode)
    ensures r.Output? <==> AllSupported(ms)
    ensures r.Output? ==> r.out == Rendered(ms, mode, addPrompt)
    ensures !r.Output? ==> exists i: nat ::
              FirstUnsupported(ms, i) && r == if ms[i].content.None? then NotText else UnsupportedRole(Role(ms[i]))
  {
    hide Flatten, Step, Text, Role, EffortText;
    var out := Text(Bos);
    InitialText(mode);
    if mode.numeric.Some? {
      out := out + (Text(SystemMark) + EffortText(mode.numeric.value));
    }
    var pending, userOpen := false, false;
    var lastUser := FindLastUser(ms);
    for i := 0 to |ms|
      invariant AllSupported(ms[..i])
      invariant var st := Run(ms[..i], i, mode, lastUser);
                out == Flatten(st.segs) && pending == st.pending && userOpen == st.userOpen
    {
      if ms[i].content.None? {
        assert FirstUnsupported(ms, i);
        return NotText;
      }
      if Role(ms[i]) !in ["system", "developer", "user", "assistant"] {
        assert FirstUnsupported(ms, i);
        return UnsupportedRole(Role(ms[i]));
      }
      assert AllSupported(ms[..i + 1]);
      RunPrefix(ms[..i], ms[..i + 1], i, mode, lastUser);
      out, pending, userOpen := RenderMessage(out, pending, userOpen, ms[i], i, mode.numeric.Some?, mode, lastUser,
                                              Run(ms[..i], i, mode, lastUser));
    }
    assert ms[..|ms|] == ms;
    ghost var st := Body(ms, mode);
    if pending && addPrompt {
      FlattenMark(st.segs, AssistantMark);
      FlattenMark(AddMark(st.segs, AssistantMark), if mode.think then Think else EndThink);
      out := out + Text(AssistantMark) + (if mode.think then Text(Think) else Text(EndThink));
    }
    return Output(out);
  }

  lemma InitialText(mode: Mode)
    requires ValidMode(mode)
    ensures Flatten(Initial(mode).segs) ==
            (if mode.numeric.Some? then Text(Bos) + (Text(SystemMark) + EffortText(mode.numeric.value)) else Text(Bos))
  {
    assert Text(Bos) + "" == Text(Bos);
    assert [] + Text(Bos) == Text(Bos);
    assert Flatten([Seg(Bos, "")]) == Text(Bos) by {
      assert [Seg(Bos, "")][..0] == [];
    }
    if mode.numeric.Some? {
      var segs := Initial(mode).segs;
      assert segs[..1] == [Seg(Bos, "")];
    }
  }

  /** The state after n messages depends on those messages only. */
  lemma {:induction false} RunPrefix(ms: seq<Message>, ns: seq<Message>, n: nat, mode: Mode, lastUser: int)
    requires n <= |ms| && n <= |ns| && ms[..n] == ns[..n]
    requires AllSupported(ms) && AllSupported(ns) && ValidMode(mode)
    ensures Run(ms, n, mode, lastUser) == Run(ns, n, mode, lastUser)
    decreases n
  {
    hide Step;
    if n > 0 {
      assert ms[..n - 1] == ms[..n][..n - 1] && ns[..n - 1] == ns[..n][..n - 1];
      assert ms[n - 1] == ms[..n][n - 1] && ns[n - 1] == ns[..n][n - 1];
      RunPrefix(ms, ns, n - 1, mode, lastUser);
    }
  }

  // -------------------------------------------------- generation continues the prompt

  lemma LastUserUnmoved(ms: seq<Message>, m: Message)
    requires Role(m) == "assistant"
    ensures LastUser(ms + [m]) == LastUser(ms)
  {
    assert (ms + [m])[..|ms|] == ms;
  }

  /** What the model produces for an assistant message after the rendered prompt. */
  function Generated(m: Message, pending: bool, mode: Mode): string
    requires m.content.Some?
  {
    (if pending && mode.think then m.reasoning + Text(EndThink) else "") + (m.content.value + Text(Eos))
  }

  /** Appending the generated assistant message re-renders to exactly the prompt followed by
      what was generated: the cached tokens stay valid. */
  lemma GenerationContinuity(ms: seq<Message>, m: Message, mode: Mode, addPrompt: bool)
    requires AllSupported(ms) && ValidMode(mode) && Role(m) == "assistant" && m.content.Some?
    ensures AllSupported(ms + [m])
    ensures Rendered(ms + [m], mode, addPrompt)
            == Rendered(ms, mode, true) + Generated(m, Body(ms, mode).pending, mode)
  {
    var ns, n := ms + [m], |ms|;
    assert AllSupported(ns);
    LastUserUnmoved(ms, m);
    RunPrefix(ms, ns, n, mode, LastUser(ms));
    AssistantAppended(Body(ms, mode), m, n, mode, LastUser(ms));
  }

  lemma AssistantAppended(st: State, m: Message, i: nat, mode: Mode, lastUser: int)
    requires st.segs != [] && Supported(m) && Role(m) == "assistant" && lastUser < i
    ensures Flatten(Step(st, m, i, mode, lastUser).segs)
            == Flatten(WithPrompt(st, mode, true)) + Generated(m, st.pending, mode)
    ensures !Step(st, m, i, mode, lastUser).pending
  {
    hide Step, Flatten, Text, AddText, Role;
    var c := m.content.value;
    StepAssistant(st, m, i, mode, lastUser);
    if st.pending {
      MarkedTurn(st.segs, m.reasoning, c, mode.think);
    } else {
      FlattenText(st.segs, c);
      FlattenMark(AddText(st.segs, c), Eos);
    }
  }

  lemma StepAssistant(st: State, m: Message, i: nat, mode: Mode, lastUser: int)
    requires st.segs != [] && Supported(m) && Role(m) == "assistant"
    ensures Step(st, m, i, mode, lastUser) ==
            State(AddMark(AddText(if st.pending then AssistantHead(st.segs, m, mode.think && i > lastUser) else st.segs,
                                  m.content.value), Eos), false, false)
  {
    hide AddText, AddMark, AssistantHead;
  }

  /** A whole assistant turn after its prompt. */
  lemma MarkedTurn(segs: seq<Seg>, reasoning: string, c: string, think: bool)
    ensures var a := AddMark(segs, AssistantMark);
            var head := AddMark(if think then AddText(AddMark(a, Think), reasoning) else a, EndThink);
            Flatten(AddMark(AddText(head, c), Eos))
            == Flatten(AddMark(a, if think then Think else EndThink))
               + ((if think then reasoning + Text(EndThink) else "") + (c + Text(Eos)))
  {
    hide Flatten, Text;
    var a := AddMark(segs, AssistantMark);
    var head := AddMark(if think then AddText(AddMark(a, Think), reasoning) else a, EndThink);
    FlattenText(head, c);
    FlattenMark(AddText(head, c), Eos);
    if think {
      FlattenText(AddMark(a, Think), reasoning);
      FlattenMark(AddText(AddMark(a, Think), reasoning), EndThink);
    }
  }

  // ---------------------------------------------- when a longer history keeps the prefix

  lemma StepExtends(st: State, m: Message, i: nat, mode: Mode, lastUser: int)
    requires Supported(m) && st.segs != []
    ensures Flatten(st.segs) <= Flatten(Step(st, m, i, mode, lastUser).segs)
  {
    hide Flatten, Text;
    var c := m.content.value;
    if IsSystem(m) {
      FlattenMark(st.segs, SystemMark);
      FlattenText(AddMark(st.segs, SystemMark), c);
      FlattenText(st.segs, c);
    } else if Role(m) == "user" {
      FlattenText(st.segs, "\n\n");
      FlattenText(AddText(st.segs, "\n\n"), c);
      FlattenMark(st.segs, UserMark);
      FlattenText(AddMark(st.segs, UserMark), c);
    } else {
      var shown := mode.think && i > lastUser;
      HeadExtends(st.segs, m, shown);
      var base := if st.pending then AssistantHead(st.segs, m, shown) else st.segs;
      FlattenText(base, c);
      FlattenMark(AddText(base, c), Eos);
    }
  }

  /** The two forms of an assistant head differ right after the assistant marker. */
  lemma HeadExtends(segs: seq<Seg>, m: Message, shown: bool)
    ensures Flatten(segs) + Text(AssistantMark) + Text(if shown then Think else EndThink)
            <= Flatten(AssistantHead(segs, m, shown))
  {
    hide Flatten, Text;
    var a := AddMark(segs, AssistantMark);
    FlattenMark(segs, AssistantMark);
    FlattenMark(a, Think);
    FlattenText(AddMark(a, Think), m.reasoning);
    FlattenMark(AddText(AddMark(a, Think), m.reasoning), EndThink);
    FlattenMark(a, EndThink);
  }

  lemma {:induction false} RunExtends(ms: seq<Message>, k: nat, n: nat, mode: Mode, lastUser: int)
    requires k <= n <= |ms| && AllSupported(ms) && ValidMode(mode)
    ensures Flatten(Run(ms, k, mode, lastUser).segs) <= Flatten(Run(ms, n, mode, lastUser).segs)
    decreases n
  {
    hide Flatten, Step;
    if k < n {
      RunExtends(ms, k, n - 1, mode, lastUser);
      StepExtends(Run(ms, n - 1, mode, lastUser), ms[n - 1], n - 1, mode, lastUser);
    }
  }

  /** A step looks at the mode and the last user only to decide whether thinking is shown. */
  lemma StepIgnores(st: State, m: Message, i: nat, a: Mode, b: Mode, u: int, v: int)
    requires Supported(m) && st.segs != [] && a.numeric == b.numeric
    requires Role(m) == "assistant" && st.pending ==> ((a.think && i > u) <==> (b.think && i > v))
    ensures Step(st, m, i, a, u) == Step(st, m, i, b, v)
  {
    hide AssistantHead, AddText, AddMark;
  }

  /** Without thinking the last user does not matter. */
  lemma {:induction false} PlainRunsAgree(ms: seq<Message>, n: nat, mode: Mode, u: int, v: int)
    requires n <= |ms| && AllSupported(ms) && ValidMode(mode) && !mode.think
    ensures Run(ms, n, mode, u) == Run(ms, n, mode, v)
    decreases n
  {
    hide Step;
    if n > 0 {
      PlainRunsAgree(ms, n - 1, mode, u, v);
      StepIgnores(Run(ms, n - 1, mode, u), ms[n - 1], n - 1, mode, mode, u, v);
    }
  }

  /** Non-thinking renderings only ever grow at the end. */
  lemma PlainPrefixMonotone(ms: seq<Message>, more: seq<Message>, mode: Mode)
    requires AllSupported(ms + more) && ValidMode(mode) && !mode.think
    ensures AllSupported(ms)
    ensures Rendered(ms, mode, false) <= Rendered(ms + more, mode, false)
  {
    var ns, n := ms + more, |ms|;
    assert ns[..n] == ms;
    assert forall i :: 0 <= i < n ==> ms[i] == ns[i];
    RunPrefix(ms, ns, n, mode, LastUser(ms));
    PlainRunsAgree(ns, n, mode, LastUser(ms), LastUser(ns));
    RunExtends(ns, n, |ns|, mode, LastUser(ns));
  }

  /** Assistant turn k shows its thinking block in a history whose last user is u. */
  ghost predicate Shown(ms: seq<Message>, k: nat, mode: Mode, u: int)
    requires k < |ms| && AllSupported(ms) && ValidMode(mode)
  {
    mode.think && k > u && Role(ms[k]) == "assistant" && Run(ms, k, mode, u).pending
  }

  /** Up to the first turn that shows thinking under u, moving the last user on changes nothing. */
  lemma {:induction false} RunsAgreeUnlessShown(ms: seq<Message>, n: nat, mode: Mode, u: int, v: int)
    requires n <= |ms| && AllSupported(ms) && ValidMode(mode) && n <= v && u <= v
    requires forall k :: 0 <= k < n ==> !Shown(ms, k, mode, u)
    ensures Run(ms, n, mode, u) == Run(ms, n, mode, v)
    decreases n
  {
    hide Step;
    if n > 0 {
      RunsAgreeUnlessShown(ms, n - 1, mode, u, v);
      assert !Shown(ms, n - 1, mode, u);
      StepIgnores(Run(ms, n - 1, mode, u), ms[n - 1], n - 1, mode, mode, u, v);
    }
  }

  lemma DifferentHeads(f: string, p: string, q: string)
    requires f + Text(Think) <= p && f + Text(EndThink) <= q
    ensures !(p <= q)
  {
    assert p[|f| + 1] == (f + Text(Think))[|f| + 1] == 't';
    assert q[|f| + 1] == (f + Text(EndThink))[|f| + 1] == '/';
  }

  lemma FirstShown(ms: seq<Message>, n: nat, mode: Mode, u: int) returns (k: nat)
    requires n <= |ms| && AllSupported(ms) && ValidMode(mode) && exists j :: 0 <= j < n && Shown(ms, j, mode, u)
    ensures k < n && Shown(ms, k, mode, u) && forall j :: 0 <= j < k ==> !Shown(ms, j, mode, u)
  {
    hide Shown;
    k := 0;
    while !Shown(ms, k, mode, u)
      invariant k < n && (forall j :: 0 <= j < k ==> !Shown(ms, j, mode, u))
      invariant exists j :: k <= j < n && Shown(ms, j, mode, u)
      decreases n - k
    {
      k := k + 1;
    }
  }

  /** Appending a turn that becomes the new last user keeps the rendered prefix, and with it the
      cache, exactly when no assistant turn of the open exchange shows its thinking. */
  lemma UserTurnKeepsPrefixIff(ms: seq<Message>, m: Message, mode: Mode)
    requires AllSupported(ms + [m]) && ValidMode(mode) && CountsAsUser(ms + [m], |ms|)
    ensures AllSupported(ms)
    ensures Rendered(ms, mode, false) <= Rendered(ms + [m], mode, false) <==>
            forall k :: 0 <= k < |ms| ==> !Shown(ms, k, mode, LastUser(ms))
  {
    hide Rendered, Shown, LastUser, CountsAsUser, Supported;
    var ns, n := ms + [m], |ms|;
    assert AllSupported(ms) by {
      assert forall i :: 0 <= i < n ==> ms[i] == ns[i];
    }
    LastUserAppended(ms, m);
    PrefixIffSameRun(ms, ns, n, mode, LastUser(ms));
  }

  lemma LastUserAppended(ms: seq<Message>, m: Message)
    requires CountsAsUser(ms + [m], |ms|)
    ensures LastUser(ms + [m]) == |ms|
  {
  }

  lemma PrefixIffSameRun(ms: seq<Message>, ns: seq<Message>, n: nat, mode: Mode, u: int)
    requires n == |ms| && |ns| == n + 1 && ns[..n] == ms && AllSupported(ns) && AllSupported(ms) && ValidMode(mode)
    requires LastUser(ms) == u && LastUser(ns) == n
    ensures Rendered(ms, mode, false) <= Rendered(ns, mode, false) <==>
            forall k :: 0 <= k < n ==> !Shown(ms, k, mode, u)
  {
    hide Flatten, Step, Shown, LastUser;
    assert ms[..n] == ns[..n];
    RunPrefix(ms, ns, n, mode, n);
    RunExtends(ns, n, n + 1, mode, n);
    if forall k :: 0 <= k < n ==> !Shown(ms, k, mode, u) {
      RunsAgreeUnlessShown(ms, n, mode, u, n);
    } else {
      var k := FirstShown(ms, n, mode, u);
      DivergedRuns(ms, k, mode, u, n, Rendered(ns, mode, false));
    }
  }

  lemma DivergedRuns(ms: seq<Message>, k: nat, mode: Mode, u: int, v: int, longer: string)
    requires k < |ms| <= v && AllSupported(ms) && ValidMode(mode) && u <= v && Shown(ms, k, mode, u)
    requires forall j :: 0 <= j < k ==> !Shown(ms, j, mode, u)
    requires Flatten(Run(ms, |ms|, mode, v).segs) <= longer
    ensures !(Flatten(Run(ms, |ms|, mode, u).segs) <= longer)
  {
    hide Flatten, Step, Shown;
    RunsAgreeUnlessShown(ms, k, mode, u, v);
    ShownDiverges(ms, k, mode, u, v);
    RunExtends(ms, k + 1, |ms|, mode, u);
    RunExtends(ms, k + 1, |ms|, mode, v);
    var f := Flatten(Run(ms, k, mode, u).segs) + Text(AssistantMark);
    DifferentHeads(f, Flatten(Run(ms, |ms|, mode, u).segs), longer);
  }

  /** Turn k with its thinking shown against the same turn with it closed. */
  lemma ShownDiverges(ms: seq<Message>, k: nat, mode: Mode, u: int, v: int)
    requires k < |ms| && AllSupported(ms) && ValidMode(mode) && Shown(ms, k, mode, u) && k <= v
    requires Run(ms, k, mode, u) == Run(ms, k, mode, v)
    ensures var f := Flatten(Run(ms, k, mode, u).segs) + Text(AssistantMark);
            f + Text(Think) <= Flatten(Run(ms, k + 1, mode, u).segs) &&
            f + Text(EndThink) <= Flatten(Run(ms, k + 1, mode, v).segs)
  {
    hide Flatten, Text;
    var st, m := Run(ms, k, mode, u), ms[k];
    var c := m.content.value;
    HeadExtends(st.segs, m, true);
    HeadExtends(st.segs, m, false);
    FlattenText(AssistantHead(st.segs, m, true), c);
    FlattenMark(AddText(AssistantHead(st.segs, m, true), c), Eos);
    FlattenText(AssistantHead(st.segs, m, false), c);
    FlattenMark(AddText(AssistantHead(st.segs, m, false), c), Eos);
  }

  /** After a user turn, named low or medium thinking and no thinking give the same body: they
      differ only in the generation prompt. */
  lemma LowAndNoneCoincide(ms: seq<Message>)
    requires ms != [] && AllSupported(ms) && CountsAsUser(ms, |ms| - 1)
    ensures Rendered(ms, Mode(true, None), false) == Rendered(ms, Mode(false, None), false)
  {
    SameWithoutShown(ms, |ms|, |ms| - 1);
  }

  lemma {:induction false} SameWithoutShown(ms: seq<Message>, n: nat, u: int)
    requires n <= |ms| && n <= u + 1 && AllSupported(ms)
    ensures Run(ms, n, Mode(true, None), u) == Run(ms, n, Mode(false, None), u)
    decreases n
  {
    hide Step;
    if n > 0 {
      SameWithoutShown(ms, n - 1, u);
      StepIgnores(Run(ms, n - 1, Mode(true, None), u), ms[n - 1], n - 1, Mode(true, None), Mode(false, None), u, u);
    }
  }
}
