/** A little gopher drawn on the command line as a loading spinner.

    The gopher is an object with exported display fields (delay, prefix, suffix,
    activity, colour), a private running/stopped state and a one-slot `done`
    channel. `Start` spawns a render loop that, frame by frame, clears the line and
    draws the gopher's face with the next glyph of its activity; `Stop` signals the
    loop through the channel and writes a closing line. Everything the gopher writes
    to standard output is recorded, one entry per write, in the field `out`. */
module Gopher {
  import opened Text

  datatype Option<T> = None | Some(value: T)
  datatype Result<T> = Ok(value: T) | Err(error: string)

  /** The gopher's activity; the source declares it as `uint8`. */
  newtype Activity = x: int | 0 <= x < 0x100

  const Waiting: Activity := 0
  const Wondering: Activity := 1
  const Boring: Activity := 2
  const Loving: Activity := 3

  /** An SGR foreground colour code; the source declares it as (64-bit) `int`. */
  newtype Color = x: int | -0x8000_0000_0000_0000 <= x < 0x8000_0000_0000_0000

  const Black: Color := 30
  const Red: Color := 31
  const Green: Color := 32
  const Yellow: Color := 33
  const Blue: Color := 34
  const Magenta: Color := 35
  const Cyan: Color := 36
  const White: Color := 37

  /** A `time.Duration`: a signed 64-bit count of nanoseconds. */
  newtype Duration = x: int | -0x8000_0000_0000_0000 <= x < 0x8000_0000_0000_0000

  const Millisecond: Duration := 1_000_000

  datatype State = Stopped | Running

  const Escape: string := "\U{1B}"

  /** The format of one frame, without its leading carriage return: prefix, colour
      code, the glyph twice, suffix. */
  const Template: string := "%s \U{1B}[%dm`( %s ౪%s )´\U{1B}[m %s"

  /** The glyph sequences of the four activities. */
  const WaitingGlyphs: string := "◔●"
  const WonderingGlyphs: string := "⊙●"
  const BoringGlyphs: string := "◷◶◵◴"
  const LovingGlyphs: string := "♡❤"

  /** The message `finalize` prints, and the line that makes with `Println`'s newline. */
  const DoneMessage: string := "\r  `( ◔ ౪◔)´  I'm done ..."
  const FinalLine: string := DoneMessage + "\n"

  /** No glyph occurs twice in `s`: consecutive frames of one pass always differ. */
  predicate Distinct(s: string) {
    forall j, k :: 0 <= j < k < |s| ==> s[j] != s[k]
  }

  /** The glyphs of an activity; any value other than the four defined ones is an error. */
  function Runes(a: Activity): (r: Result<string>)
    ensures r.Ok? <==> a <= Loving
    ensures r.Err? ==> r.error == "unknown activity"
    ensures r.Ok? ==> (|r.value| == 2 || |r.value| == 4) && Distinct(r.value)
    ensures r.Ok? && a != Boring ==> |r.value| == 2
  {
    if a == Waiting then Ok(WaitingGlyphs)
    else if a == Wondering then Ok(WonderingGlyphs)
    else if a == Boring then Ok(BoringGlyphs)
    else if a == Loving then Ok(LovingGlyphs)
    else Err("unknown activity")
  }

  /** Different activities never share a glyph sequence. */
  lemma RunesInjective(a: Activity, b: Activity)
    requires Runes(a).Ok? && Runes(a) == Runes(b)
    ensures a == b
  {
    assert WaitingGlyphs[0] != WonderingGlyphs[0];
  }

  /** The exact glyph table. */
  lemma RunesTable()
    ensures Runes(Waiting) == Ok(['◔', '●'])
    ensures Runes(Wondering) == Ok(['⊙', '●'])
    ensures Runes(Boring) == Ok(['◷', '◶', '◵', '◴'])
    ensures Runes(Loving) == Ok(['♡', '❤'])
    ensures forall a: Activity :: a > Loving ==> Runes(a) == Err("unknown activity")
  {
  }

  /** Where the first copy of the glyph sits in a frame; the second is three further on. */
  function GlyphPos(prefix: string, color: Color): nat {
    |prefix| + |Itoa(color as int)| + 8
  }

  /** `\033[<color>m`: switch the foreground colour on. */
  function ColorOn(color: Color): (s: string)
    ensures |s| == |Itoa(color as int)| + 3 && s[0] == Escape[0]
  {
    Escape + ("[" + (Itoa(color as int) + "m"))
  }

  /** `\033[m `: reset all attributes, then the space before the suffix. */
  const ColorOff: string := "\U{1B}[m "

  /** The gopher's face with `glyph` in both eye positions. */
  function Face(glyph: char): (s: string)
    ensures |s| == 10 && s[3] == glyph && s[6] == glyph
  {
    "`( " + [glyph] + " ౪" + [glyph] + " )´"
  }

  /** The part of a frame before the face: carriage return, prefix, space, colour escape. */
  function Lead(prefix: string, color: Color): string {
    "\r" + (prefix + (" " + ColorOn(color)))
  }

  /** One frame: carriage return, prefix, colour escape, the face with `glyph` in both
      eye positions, attribute reset, suffix. */
  function Frame(prefix: string, color: Color, glyph: char, suffix: string): string {
    Lead(prefix, color) + (Face(glyph) + (ColorOff + suffix))
  }

  /** A frame starts with a carriage return and the prefix, ends with the suffix, and
      holds the glyph in both eye positions. */
  lemma FrameShape(prefix: string, color: Color, glyph: char, suffix: string)
    ensures var f := Frame(prefix, color, glyph, suffix);
      && |f| == |prefix| + |Itoa(color as int)| + |suffix| + 19
      && f[0] == '\r' && f[1..|prefix| + 1] == prefix
      && f[|f| - |suffix|..] == suffix
      && f[GlyphPos(prefix, color)] == glyph && f[GlyphPos(prefix, color) + 3] == glyph
  {
    var lead := Lead(prefix, color);
    var face := Face(glyph);
    var tail := ColorOff + suffix;
    LeadShape(prefix, color);
    FrameParts(lead, face, tail);
    assert tail[|tail| - |suffix|..] == suffix;
  }

  lemma LeadShape(prefix: string, color: Color)
    ensures |Lead(prefix, color)| == |prefix| + |Itoa(color as int)| + 5
    ensures Lead(prefix, color)[0] == '\r' && Lead(prefix, color)[1..|prefix| + 1] == prefix
  {
    var rest := " " + ColorOn(color);
    assert Lead(prefix, color) == "\r" + (prefix + rest);
    assert (prefix + rest)[..|prefix|] == prefix;
  }

  /** The three parts of a frame sit one after the other. */
  lemma FrameParts(lead: string, face: string, tail: string)
    requires |face| == 10
    ensures var f := lead + (face + tail);
      && f[..|lead|] == lead && f[|lead|..|lead| + 10] == face && f[|lead| + 10..] == tail
  {
    var f := lead + (face + tail);
    assert f[|lead|..] == face + tail;
  }

  /** The end of the frame format, from the `m` that closes the colour escape. */
  const FaceFormat: string := "m`( %s ౪%s )´\U{1B}[m %s"

  // The frame format, split at its verbs.
  lemma FormatSplit()
    ensures FaceFormat == "m`( " + ("%s" + (" ౪" + ("%s" + (" )´\U{1B}[m " + ("%s" + "")))))
    ensures "\r" + Template == "\r" + ("%s" + (" \U{1B}[" + ("%d" + FaceFormat)))
  {
  }

  lemma PrintfSuffix(suffix: string)
    ensures Sprintf(" )´\U{1B}[m " + ("%s" + ""), [Str(suffix)]) == " )´\U{1B}[m " + suffix
  {
    SprintfString("", suffix, []);
    SprintfLiteral(" )´\U{1B}[m ", "%s" + "", [Str(suffix)]);
  }

  lemma PrintfSecondGlyph(g: string, suffix: string)
    ensures Sprintf(" ౪" + ("%s" + (" )´\U{1B}[m " + ("%s" + ""))), [Str(g), Str(suffix)])
         == " ౪" + (g + (" )´\U{1B}[m " + suffix))
  {
    PrintfSuffix(suffix);
    SprintfString(" )´\U{1B}[m " + ("%s" + ""), g, [Str(suffix)]);
    SprintfLiteral(" ౪", "%s" + (" )´\U{1B}[m " + ("%s" + "")), [Str(g), Str(suffix)]);
  }

  lemma PrintfFirstGlyph(g: string, suffix: string)
    ensures Sprintf("m`( " + ("%s" + (" ౪" + ("%s" + (" )´\U{1B}[m " + ("%s" + ""))))), [Str(g), Str(g), Str(suffix)])
         == "m`( " + (g + (" ౪" + (g + (" )´\U{1B}[m " + suffix))))
  {
    PrintfSecondGlyph(g, suffix);
    SprintfString(" ౪" + ("%s" + (" )´\U{1B}[m " + ("%s" + ""))), g, [Str(g), Str(suffix)]);
    SprintfLiteral("m`( ", "%s" + (" ౪" + ("%s" + (" )´\U{1B}[m " + ("%s" + "")))), [Str(g), Str(g), Str(suffix)]);
  }

  lemma FaceSplit(glyph: char, suffix: string)
    ensures "m`( " + ([glyph] + (" ౪" + ([glyph] + (" )´\U{1B}[m " + suffix)))) == "m" + Face(glyph) + ColorOff + suffix
  {
  }

  /** The end of the format writes the face with the glyph twice, the reset and the suffix. */
  lemma PrintfFace(glyph: char, suffix: string)
    ensures Sprintf(FaceFormat, [Str([glyph]), Str([glyph]), Str(suffix)]) == "m" + Face(glyph) + ColorOff + suffix
  {
    PrintfFirstGlyph([glyph], suffix);
    FormatSplit();
    FaceSplit(glyph, suffix);
  }

  lemma PrintfLead(prefix: string, c: int, rest: string, tail: seq<Arg>)
    ensures Sprintf("\r" + ("%s" + (" \U{1B}[" + ("%d" + rest))), [Str(prefix), Int(c)] + tail)
         == "\r" + (prefix + (" \U{1B}[" + (Itoa(c) + Sprintf(rest, tail))))
  {
    SprintfInt(rest, c, tail);
    SprintfLiteral(" \U{1B}[", "%d" + rest, [Int(c)] + tail);
    SprintfString(" \U{1B}[" + ("%d" + rest), prefix, [Int(c)] + tail);
    assert [Str(prefix)] + ([Int(c)] + tail) == [Str(prefix), Int(c)] + tail;
    SprintfLiteral("\r", "%s" + (" \U{1B}[" + ("%d" + rest)), [Str(prefix), Int(c)] + tail);
  }

  lemma EscapeJoin(rest: string)
    ensures " " + (Escape + ("[" + rest)) == " \U{1B}[" + rest
  {
  }

  lemma ColorOnJoin(digits: string, rest: string)
    ensures Escape + ("[" + (digits + "m")) + rest == Escape + ("[" + (digits + ("m" + rest)))
  {
  }

  lemma FaceJoin(face: string, suffix: string)
    ensures "m" + face + ColorOff + suffix == "m" + (face + (ColorOff + suffix))
  {
  }

  lemma FrameSplit(prefix: string, color: Color, glyph: char, suffix: string)
    ensures Frame(prefix, color, glyph, suffix)
         == "\r" + (prefix + (" \U{1B}[" + (Itoa(color as int) + ("m" + Face(glyph) + ColorOff + suffix))))
  {
    var digits, rest := Itoa(color as int), Face(glyph) + (ColorOff + suffix);
    FaceJoin(Face(glyph), suffix);
    ColorOnJoin(digits, rest);
    EscapeJoin(digits + ("m" + rest));
    assert Frame(prefix, color, glyph, suffix) == "\r" + (prefix + (" " + ColorOn(color))) + rest;
    assert "\r" + (prefix + (" " + ColorOn(color))) + rest == "\r" + (prefix + (" " + (ColorOn(color) + rest)));
  }

  /** The frame is what `Printf("\r" + gopher, Prefix, Color, glyph, glyph, Suffix)` writes. */
  lemma FrameIsPrintf(prefix: string, color: Color, glyph: char, suffix: string)
    ensures Frame(prefix, color, glyph, suffix)
         == Sprintf("\r" + Template, [Str(prefix), Int(color as int), Str([glyph]), Str([glyph]), Str(suffix)])
  {
    var tail := [Str([glyph]), Str([glyph]), Str(suffix)];
    assert [Str(prefix), Int(color as int)] + tail
        == [Str(prefix), Int(color as int), Str([glyph]), Str([glyph]), Str(suffix)];
    FormatSplit();
    PrintfLead(prefix, color as int, FaceFormat, tail);
    PrintfFace(glyph, suffix);
    FrameSplit(prefix, color, glyph, suffix);
  }

  /** A frame determines its glyph: different glyphs give different frames. */
  lemma FrameDeterminesGlyph(prefix: string, color: Color, g1: char, g2: char, suffix: string)
    requires Frame(prefix, color, g1, suffix) == Frame(prefix, color, g2, suffix)
    ensures g1 == g2
  {
    FrameShape(prefix, color, g1, suffix);
    FrameShape(prefix, color, g2, suffix);
  }

  /** The text of a frame that takes up columns on the terminal: the frame without its
      carriage return and escape sequences. */
  function VisibleText(prefix: string, glyph: char, suffix: string): string {
    prefix + " `( " + [glyph] + " ౪" + [glyph] + " )´ " + suffix
  }

  lemma TemplatePieces()
    ensures Template == "%s \U{1B}[%dm`( %s " + ("౪" + ("%s )" + ("´" + "\U{1B}[m %s")))
  {
  }

  lemma HeadBytes()
    ensures ByteLen("%s \U{1B}[%dm`( %s ") == 14
  {
    AsciiBytes("%s \U{1B}[%dm`( %s ");
  }

  lemma MiddleBytes()
    ensures ByteLen("%s )") == 4
  {
    AsciiBytes("%s )");
  }

  lemma TailBytes()
    ensures ByteLen("\U{1B}[m %s") == 6
  {
    AsciiBytes("\U{1B}[m %s");
  }

  lemma WideBytes()
    ensures ByteLen("౪") == 3 && ByteLen("´") == 2
  {
    assert ByteLen("౪") == RuneLen('౪') + ByteLen("");
    assert ByteLen("´") == RuneLen('´') + ByteLen("");
  }

  /** The format string `gopher` is 29 bytes long in UTF-8 (26 code points). */
  lemma TemplateBytes()
    ensures ByteLen(Template) == 29
  {
    TemplatePieces();
    HeadBytes();
    MiddleBytes();
    TailBytes();
    WideBytes();
    ByteLenAppend("´", "\U{1B}[m %s");
    ByteLenAppend("%s )", "´" + "\U{1B}[m %s");
    ByteLenAppend("౪", "%s )" + ("´" + "\U{1B}[m %s"));
    ByteLenAppend("%s \U{1B}[%dm`( %s ", "౪" + ("%s )" + ("´" + "\U{1B}[m %s")));
  }

  /** The number of columns the clear sequence moves left: `len(Prefix + gopher + Suffix)`,
      the UTF-8 byte length of the prefix, the format string and the suffix. */
  function ClearCount(prefix: string, suffix: string): nat {
    ByteLen(prefix + Template + suffix)
  }

  /** The format string is 29 bytes long, so the count depends only on prefix and suffix
      lengths, not on the glyph, the colour or the activity. */
  lemma ClearCountBytes(prefix: string, suffix: string)
    ensures ClearCount(prefix, suffix) == ByteLen(prefix) + 29 + ByteLen(suffix)
  {
    ByteLenAppend(prefix + Template, suffix);
    ByteLenAppend(prefix, Template);
    TemplateBytes();
  }

  /** Moving left by the clear count from the end of a frame drawn with the same prefix
      and suffix reaches the start of the line (one column per code point). */
  lemma ClearCoversFrame(prefix: string, glyph: char, suffix: string)
    ensures ClearCount(prefix, suffix) >= |VisibleText(prefix, glyph, suffix)|
  {
    ClearCountBytes(prefix, suffix);
  }

  /** `\033[<n>D`: move the cursor `n` columns left. */
  function MoveLeft(n: int): string {
    "\U{1B}[" + (Itoa(n) + "D")
  }

  lemma MoveLeftFormat()
    ensures "\U{1B}[%dD" == "\U{1B}[" + ("%d" + "D")
    ensures NoVerb("\U{1B}[") && NoVerb("D")
  {
  }

  /** The escape sequence is what `Fprintf(w, "\033[%dD", n)` writes. */
  lemma MoveLeftIsPrintf(n: int)
    ensures MoveLeft(n) == Sprintf("\U{1B}[%dD", [Int(n)])
  {
    MoveLeftFormat();
    SprintfOneInt("\U{1B}[", n, "D");
  }

  /** `\033[K`: erase to the end of the line. */
  function EraseLine(): string {
    Escape + "[K"
  }

  /** The escape sequence is what `Fprintf(w, "%s[K", escape)` writes. */
  lemma EraseLineIsPrintf()
    ensures EraseLine() == Sprintf("%s[K", [Str(Escape)])
  {
    assert "%s[K" == "" + ("%s" + "[K");
    SprintfOneStr("", Escape, "[K");
  }

  /** What a frame reads from the gopher's exported fields. */
  datatype View = View(prefix: string, suffix: string, activity: Activity, color: Color)

  /** The three writes of one frame: the two of `clearOutput`, then the frame itself. */
  function Emit(v: View, glyph: char): seq<string> {
    [MoveLeft(ClearCount(v.prefix, v.suffix)), EraseLine(), Frame(v.prefix, v.color, glyph, v.suffix)]
  }

  /** Where a render-loop goroutine stands between two frames: at the top of its outer
      loop, about to resolve the glyphs; inside a pass at index `i` of the glyphs it
      resolved; or stopped by a panic on an unknown activity. */
  datatype Pass = Top | Inner(runes: string, i: nat) | Panicked(err: string) {
    predicate WellFormed() {
      Inner? ==> i < |runes|
    }
  }

  /** The outcome of one step of a loop: where it stands next (`None` once it has
      returned), whether a done signal is still pending, and the glyph of the frame it
      drew, if it drew one. */
  datatype Outcome = Outcome(next: Option<Pass>, done: bool, drawn: Option<char>)

  /** One iteration of the inner loop at index `i`: the select on `done`, else draw
      `runes[i]` and advance. */
  function Select(runes: string, i: nat, done: bool): (r: Outcome)
    requires i < |runes|
    ensures done ==> r == Outcome(None, false, None)
    ensures !done ==> r.next.Some? && r.next.value.WellFormed() && !r.done && r.drawn == Some(runes[i])
    ensures !done ==> (r.next.value.Top? <==> i == |runes| - 1)
    ensures !done && r.next.value.Inner? ==> r.next.value == Inner(runes, i + 1)
  {
    if done then Outcome(None, false, None)
    else Outcome(Some(if i + 1 < |runes| then Inner(runes, i + 1) else Top), false, Some(runes[i]))
  }

  /** One step of a render loop, when the gopher's activity field holds `activity` and the
      channel state is `done`. */
  function LoopStep(p: Pass, activity: Activity, done: bool): (r: Outcome)
    requires p.WellFormed()
    ensures r.next.Some? ==> r.next.value.WellFormed()
    // a loop returns only by consuming the signal, and a step never raises one
    ensures r.next.None? <==> (done && !r.done)
    ensures r.done ==> done
    // a step draws a frame exactly when it neither returns nor panics
    ensures r.drawn.Some? <==> (!done && (p.Inner? || (p.Top? && Runes(activity).Ok?)))
    // the glyphs are resolved at the top of the outer loop, before the signal is checked
    ensures p.Top? && Runes(activity).Err? ==> r == Outcome(Some(Panicked("unknown activity")), done, None)
    ensures p.Panicked? ==> r == Outcome(Some(p), done, None)
    // with a pending signal a live loop returns and draws nothing
    ensures done && (p.Inner? || (p.Top? && Runes(activity).Ok?)) ==> r == Outcome(None, false, None)
    // otherwise it draws its current glyph: the next of its pass, or the first of a new pass
    ensures !done && p.Inner? ==> r.drawn == Some(p.runes[p.i])
    ensures !done && p.Top? && Runes(activity).Ok? ==> r.drawn == Some(Runes(activity).value[0])
  {
    match p
    case Panicked(_) => Outcome(Some(p), done, None)
    case Top =>
      (match Runes(activity)
       case Err(e) => Outcome(Some(Panicked(e)), done, None)
       case Ok(rs) => Select(rs, 0, done))
    case Inner(rs, i) => Select(rs, i, done)
  }

  /** Within a pass the loop does not read the activity again. */
  lemma StepIgnoresActivityMidPass(runes: string, i: nat, a: Activity, b: Activity, done: bool)
    requires i < |runes|
    ensures LoopStep(Inner(runes, i), a, done) == LoopStep(Inner(runes, i), b, done)
  {
  }

  /** The glyphs a loop draws when it takes one step per entry of `acts`, the activity
      field holding `acts[k]` at step `k`, and no signal arrives. */
  function Run(p: Pass, acts: seq<Activity>): seq<char>
    requires p.WellFormed()
    decreases |acts|
  {
    if acts == [] || p.Panicked? then []
    else
      var r := LoopStep(p, acts[0], false);
      (if r.drawn.Some? then [r.drawn.value] else []) + Run(r.next.value, acts[1..])
  }

  /** Reference for cycling: `n` glyphs of `glyphs` read round-robin from index `start`,
      so the k-th is `glyphs[(start + k) mod |glyphs|]`. */
  function Cycle(glyphs: string, start: nat, n: nat): (c: seq<char>)
    requires |glyphs| > 0
    ensures |c| == n
    decreases n
  {
    if n == 0 then [] else [glyphs[start % |glyphs|]] + Cycle(glyphs, start + 1, n - 1)
  }

  /** The closed form of the reference: entry `k` is `glyphs[(start + k) mod |glyphs|]`. */
  lemma {:induction false} CycleAt(glyphs: string, start: nat, n: nat, k: nat)
    requires |glyphs| > 0 && k < n
    ensures Cycle(glyphs, start, n)[k] == glyphs[(start + k) % |glyphs|]
    decreases n
  {
    if k > 0 {
      CycleAt(glyphs, start + 1, n - 1, k - 1);
    }
  }

  predicate AllSame(acts: seq<Activity>, a: Activity) {
    forall k :: 0 <= k < |acts| ==> acts[k] == a
  }

  // Glyph sequences have two or four entries, so the wrap-around is arithmetic modulo a constant.
  lemma Mod2Step(start: nat)
    ensures (start + 1) % 2 == if start % 2 == 0 then 1 else 0
  {
  }

  lemma Mod4Step(start: nat)
    ensures (start + 1) % 4 == if start % 4 < 3 then start % 4 + 1 else 0
  {
  }

  lemma ModStep(start: nat, n: nat)
    requires n == 2 || n == 4
    ensures (start + 1) % n == if start % n + 1 < n then start % n + 1 else 0
  {
    if n == 2 {
      Mod2Step(start);
    } else {
      Mod4Step(start);
    }
  }

  /** Pass `p` is about to draw glyph `i` of `g`: inside a pass over `g`, or at the top of
      the loop when `i` is the first index. */
  predicate At(p: Pass, g: string, i: nat) {
    p == Inner(g, i) || (p == Top && i == 0)
  }

  /** From position `i` a step without a signal draws `g[i]` and moves to the next position. */
  lemma StepAt(p: Pass, g: string, i: nat, a: Activity)
    requires Runes(a) == Ok(g) && i < |g| && At(p, g, i)
    ensures p.WellFormed()
    ensures LoopStep(p, a, false) == Select(g, i, false)
    ensures At(LoopStep(p, a, false).next.value, g, if i + 1 < |g| then i + 1 else 0)
  {
  }

  /** While the activity stays the same, the frames go through its glyphs in order and
      wrap to the first after the last. */
  lemma {:induction false} CycleOrder(a: Activity, g: string, p: Pass, start: nat, acts: seq<Activity>)
    requires Runes(a) == Ok(g) && AllSame(acts, a)
    requires |g| > 0 && At(p, g, start % |g|)
    ensures p.WellFormed() && Run(p, acts) == Cycle(g, start, |acts|)
    decreases |acts|
  {
    var i := start % |g|;
    assert p.WellFormed();
    if acts != [] {
      StepAt(p, g, i, a);
      assert acts[0] == a;
      var next := LoopStep(p, a, false).next.value;
      assert |g| == 2 || |g| == 4;
      ModStep(start, |g|);
      assert AllSame(acts[1..], a);
      CycleOrder(a, g, next, start + 1, acts[1..]);
    }
  }

  /** A pass in progress finishes with the glyphs it resolved, whatever the activity is
      set to meanwhile; only then does the loop go back to the top and re-read it. */
  lemma {:induction false} PassFinishes(runes: string, i: nat, acts: seq<Activity>, rest: seq<Activity>)
    requires i < |runes| && |acts| == |runes| - i
    ensures Run(Inner(runes, i), acts + rest) == runes[i..] + Run(Top, rest)
    decreases |acts|
  {
    var all := acts + rest;
    assert all[0] == acts[0] && all[1..] == acts[1..] + rest;
    if i + 1 < |runes| {
      PassFinishes(runes, i + 1, acts[1..], rest);
      assert runes[i..] == [runes[i]] + runes[i + 1..];
    } else {
      assert acts[1..] + rest == rest;
      assert runes[i..] == [runes[i]];
    }
  }

  /** A change of activity takes effect at the next pass: the current pass completes with
      the old glyphs, then the frames cycle through the new activity's glyphs. */
  lemma ActivityChange(runes: string, i: nat, acts: seq<Activity>, rest: seq<Activity>, a: Activity)
    requires i < |runes| && |acts| == |runes| - i
    requires Runes(a).Ok? && AllSame(rest, a)
    ensures Run(Inner(runes, i), acts + rest) == runes[i..] + Cycle(Runes(a).value, 0, |rest|)
  {
    PassFinishes(runes, i, acts, rest);
    CycleOrder(a, Runes(a).value, Top, 0, rest);
  }

  /** With the activity at Boring, five frames show ◷, ◶, ◵, ◴ and then ◷ again. */
  lemma BoringCycle()
    ensures Run(Top, [Boring, Boring, Boring, Boring, Boring]) == ['◷', '◶', '◵', '◴', '◷']
  {
    var acts := [Boring, Boring, Boring, Boring, Boring];
    assert AllSame(acts, Boring);
    CycleOrder(Boring, BoringGlyphs, Top, 0, acts);
  }

  /** Holds the acting gopher. */
  class Gopher {
    var delay: Duration      // motion delay; inert in this model
    var prefix: string       // prefix message
    var suffix: string       // suffix message
    var activity: Activity   // gopher activity
    var color: Color         // gopher colour
    var state: State         // current state
    var done: bool           // the one-slot `done` channel holds a signal
    var loops: seq<Pass>     // the render-loop goroutines alive, in the order they were spawned
    var out: seq<string>     // everything written to standard output, one entry per write

    /** Every loop is well formed, and a loop is alive for a running gopher plus one
        for a signal not yet consumed. */
    ghost predicate Valid()
      reads this
    {
      (forall k :: 0 <= k < |loops| ==> loops[k].WellFormed())
      && |loops| == (if state == Running then 1 else 0) + (if done then 1 else 0)
    }

    /** The fields the render loop reads for a frame. */
    function Fields(): View
      reads this
    {
      View(prefix, suffix, activity, color)
    }

    /** A new, stopped gopher with the default values. */
    constructor New()
      ensures Valid()
      ensures state == Stopped && activity == Waiting && color == White
      ensures delay == 1000 * Millisecond && prefix == "" && suffix == ""
      ensures !done && loops == [] && out == []
    {
      delay := 1000 * Millisecond;
      prefix := "";
      suffix := "";
      activity := Waiting;
      color := White;
      state := Stopped;
      done := false;
      loops := [];
      out := [];
    }

    /** Starts the gopher: nothing happens when it is already running; otherwise it is
        marked running and one new loop begins at the top of its outer loop. */
    method Start()
      requires Valid()
      modifies this`state, this`loops
      ensures Valid()
      ensures old(state) == Running ==> unchanged(this)
      ensures old(state) == Stopped ==> state == Running && loops == old(loops) + [Top]
    {
      if state == Running {
        return;
      }
      state := Running;
      loops := loops + [Top];
    }

    /** Stops the gopher: nothing happens when it is stopped; otherwise the signal is
        placed in the channel, the state becomes stopped and the closing line is written. */
    method Stop()
      requires Valid()
      requires state == Running ==> !done
      modifies this`done, this`state, this`out
      ensures Valid()
      ensures old(state) == Stopped ==> unchanged(this)
      ensures old(state) == Running ==> state == Stopped && done && out == old(out) + [FinalLine]
    {
      if state == Running {
        done := true;
        state := Stopped;
        Finalize();
      }
    }

    /** The gopher's face, as printed in the closing line. */
    function String(): (s: string)
      ensures DoneMessage == "\r  " + s + "  I'm done ..."
    {
      "`( ◔ ౪◔)´"
    }

    /** Moves the cursor back over the line and erases it. */
    method ClearOutput()
      modifies this`out
      ensures out == old(out) + [MoveLeft(ClearCount(prefix, suffix)), EraseLine()]
    {
      out := out + [MoveLeft(ClearCount(prefix, suffix))];
      out := out + [EraseLine()];
    }

    /** Writes the closing line (with the newline `Println` adds). */
    method Finalize()
      modifies this`out
      ensures out == old(out) + [FinalLine]
    {
      out := out + [FinalLine];
    }

    /** Clears the line and draws one frame with `glyph` and the current fields. */
    method Draw(glyph: char)
      modifies this`out
      ensures out == old(out) + Emit(Fields(), glyph)
    {
      ClearOutput();
      out := out + [Frame(prefix, color, glyph, suffix)];
    }

    /** The body of the inner loop for loop `k`, standing at index `i` of `runes`: the
        select on `done`, else draw and advance. */
    method Iterate(k: nat, runes: string, i: nat)
      requires Valid() && k < |loops| && i < |runes|
      requires loops[k] == Inner(runes, i) || (loops[k] == Top && i == 0 && Runes(activity) == Ok(runes))
      modifies this`out, this`done, this`loops
      ensures Valid()
      ensures var r := Select(runes, i, old(done));
        && loops == (if r.next.Some? then old(loops)[k := r.next.value] else old(loops[..k] + loops[k + 1..]))
        && done == r.done
        && out == old(out) + (if r.drawn.Some? then Emit(Fields(), r.drawn.value) else [])
    {
      if done {
        done := false;
        loops := loops[..k] + loops[k + 1..];
      } else {
        Draw(runes[i]);
        loops := loops[k := if i + 1 < |runes| then Inner(runes, i + 1) else Top];
      }
    }

    /** Runs loop `k` up to its next frame: resolve the glyphs if it is at the top of
        its outer loop, then return if a signal is pending, else clear the line, draw
        the current glyph with the current prefix, colour and suffix, and move on; a
        loop that has returned is no longer alive. */
    method Step(k: nat)
      requires Valid() && k < |loops|
      modifies this`out, this`done, this`loops
      ensures Valid()
      ensures var r := LoopStep(old(loops[k]), activity, old(done));
        && loops == (if r.next.Some? then old(loops)[k := r.next.value] else old(loops[..k] + loops[k + 1..]))
        && done == r.done
        && out == old(out) + (if r.drawn.Some? then Emit(Fields(), r.drawn.value) else [])
    {
      match loops[k]
      case Panicked(_) =>
      case Inner(runes, i) =>
        Iterate(k, runes, i);
      case Top =>
        var rs := Runes(activity);
        if rs.Err? {
          loops := loops[k := Panicked(rs.error)];
        } else {
          Iterate(k, rs.value, 0);
        }
    }
  }
}
