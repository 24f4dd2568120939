/** Client sequences of calls on a fresh gopher. Each one assigns exported fields
    directly, as a caller of the package does, and each says exactly what is
    written to standard output. */
module Scenarios {
  import opened Gopher

  /** A new gopher with the given prefix and suffix, after `Start`: one loop, at the top
      of its outer loop, and nothing written yet. */
  method Started(prefix: string, suffix: string) returns (g: Gopher)
    ensures fresh(g) && g.Valid()
    ensures g.Fields() == View(prefix, suffix, Waiting, White) && g.state == Running
    ensures g.loops == [Top] && !g.done && g.out == []
  {
    g := new Gopher.New();
    g.prefix, g.suffix := prefix, suffix;
    g.Start();
  }

  /** Loop `k` at the top of its outer loop, with no signal pending, resolves `glyphs`,
      draws the first and enters the pass. */
  method TopStep(g: Gopher, k: nat, glyphs: string)
    requires g.Valid() && k < |g.loops| && g.loops[k] == Top && !g.done && Runes(g.activity) == Ok(glyphs)
    modifies g`out, g`done, g`loops
    ensures g.Valid() && !g.done
    ensures g.loops == old(g.loops)[k := Inner(glyphs, 1)]
    ensures g.out == old(g.out) + Emit(g.Fields(), glyphs[0])
  {
    g.Step(k);
  }

  /** Loop `k` inside a pass, with no signal pending, draws its glyph and moves on. */
  method InnerStep(g: Gopher, k: nat, runes: string, i: nat)
    requires g.Valid() && k < |g.loops| && g.loops[k] == Inner(runes, i) && !g.done
    modifies g`out, g`done, g`loops
    ensures g.Valid() && !g.done
    ensures g.loops == old(g.loops)[k := if i + 1 < |runes| then Inner(runes, i + 1) else Top]
    ensures g.out == old(g.out) + Emit(g.Fields(), runes[i])
  {
    g.Step(k);
  }

  /** Loop `k`, alive and not panicked, takes the pending signal and returns. */
  method SignalStep(g: Gopher, k: nat)
    requires g.Valid() && k < |g.loops| && g.done
    requires g.loops[k].Inner? || (g.loops[k].Top? && Runes(g.activity).Ok?)
    modifies g`out, g`done, g`loops
    ensures g.Valid() && !g.done
    ensures g.loops == old(g.loops[..k] + g.loops[k + 1..])
    ensures g.out == old(g.out)
  {
    g.Step(k);
  }

  /** Loop `k`, at the top of its outer loop with a two-glyph activity and no signal
      pending, draws one full pass and returns to the top. */
  method FullPass(g: Gopher, k: nat, glyphs: string)
    requires g.Valid() && k < |g.loops| && g.loops[k] == Top && !g.done
    requires Runes(g.activity) == Ok(glyphs) && |glyphs| == 2
    modifies g`out, g`done, g`loops
    ensures g.Valid() && g.loops == old(g.loops) && !g.done
    ensures g.out == old(g.out) + Emit(g.Fields(), glyphs[0]) + Emit(g.Fields(), glyphs[1])
  {
    TopStep(g, k, glyphs);
    InnerStep(g, k, glyphs, 1);
  }

  /** Start, two frames, the colour set to Green, two more frames, Stop, and one more
      step of the loop: the first frames use code 37 and the later ones code 32. Each
      frame uses the colour the field holds when it is drawn. The closing line comes
      last, and the loop returns without drawing once it sees the signal. */
  method ColorChange(prefix: string, suffix: string) returns (out: seq<string>, alive: nat)
    ensures out == Emit(View(prefix, suffix, Waiting, White), '◔') + Emit(View(prefix, suffix, Waiting, White), '●')
                 + Emit(View(prefix, suffix, Waiting, Green), '◔') + Emit(View(prefix, suffix, Waiting, Green), '●')
                 + [FinalLine]
    ensures alive == 0
  {
    ghost var white, green := View(prefix, suffix, Waiting, White), View(prefix, suffix, Waiting, Green);
    var g := Started(prefix, suffix);
    FullPass(g, 0, WaitingGlyphs);
    ghost var first := g.out;
    assert first == Emit(white, '◔') + Emit(white, '●');
    g.color := Green;
    assert g.Fields() == green;
    FullPass(g, 0, WaitingGlyphs);
    ghost var second := g.out;
    assert second == first + Emit(green, '◔') + Emit(green, '●');
    g.Stop();
    assert g.loops == [Top] && g.out == second + [FinalLine];
    SignalStep(g, 0);
    out, alive := g.out, |g.loops|;
  }

  /** A second Start spawns no second loop and a second Stop writes nothing more: one
      loop, one frame, one closing line. */
  method StartTwiceStopTwice(prefix: string, suffix: string) returns (out: seq<string>, alive: nat)
    ensures out == Emit(View(prefix, suffix, Waiting, White), '◔') + [FinalLine]
    ensures alive == 0
  {
    var g := Started(prefix, suffix);
    g.Start();
    assert g.loops == [Top];
    TopStep(g, 0, WaitingGlyphs);
    ghost var first := g.out;
    assert g.loops == [Inner(WaitingGlyphs, 1)] && first == Emit(View(prefix, suffix, Waiting, White), '◔');
    g.Stop();
    g.Stop();
    assert g.loops == [Inner(WaitingGlyphs, 1)] && g.out == first + [FinalLine];
    SignalStep(g, 0);
    out, alive := g.out, |g.loops|;
  }

  /** Stopping a gopher that never ran writes nothing and leaves no loop. */
  method StopBeforeStart(prefix: string, suffix: string) returns (out: seq<string>, alive: nat, running: bool)
    ensures out == [] && alive == 0 && !running
  {
    var g := new Gopher.New();
    g.prefix, g.suffix := prefix, suffix;
    g.Stop();
    out, alive, running := g.out, |g.loops|, g.state == Running;
  }

  /** Setting the activity to Loving while the first pass is under way: the pass ends
      with the Waiting glyphs, and the next pass draws ♡ and then ❤. */
  method ActivityToLoving(prefix: string, suffix: string) returns (out: seq<string>)
    ensures out == Emit(View(prefix, suffix, Waiting, White), '◔') + Emit(View(prefix, suffix, Loving, White), '●')
                 + Emit(View(prefix, suffix, Loving, White), '♡') + Emit(View(prefix, suffix, Loving, White), '❤')
  {
    ghost var waiting, loving := View(prefix, suffix, Waiting, White), View(prefix, suffix, Loving, White);
    var g := Started(prefix, suffix);
    TopStep(g, 0, WaitingGlyphs);
    ghost var first := g.out;
    assert g.loops == [Inner(WaitingGlyphs, 1)] && first == Emit(waiting, '◔');
    g.activity := Loving;
    assert g.Fields() == loving;
    InnerStep(g, 0, WaitingGlyphs, 1);
    ghost var second := g.out;
    assert g.loops == [Top] && second == first + Emit(loving, '●');
    FullPass(g, 0, LovingGlyphs);
    assert g.out == second + Emit(loving, '♡') + Emit(loving, '❤');
    out := g.out;
  }

  /** Stop followed at once by Start, after one frame: the old loop has not yet seen the
      signal, so two loops are alive, and the signal is still pending. */
  method RestartPending(prefix: string, suffix: string) returns (g: Gopher)
    ensures fresh(g) && g.Valid() && g.done && g.state == Running
    ensures g.Fields() == View(prefix, suffix, Waiting, White)
    ensures g.loops == [Inner(WaitingGlyphs, 1), Top]
    ensures g.out == Emit(View(prefix, suffix, Waiting, White), '◔') + [FinalLine]
  {
    g := Started(prefix, suffix);
    TopStep(g, 0, WaitingGlyphs);
    ghost var first := g.out;
    assert g.loops == [Inner(WaitingGlyphs, 1)] && first == Emit(View(prefix, suffix, Waiting, White), '◔');
    g.Stop();
    g.Start();
  }

  /** Continuing from there: the first loop to step takes the signal, and the other goes
      on drawing; one loop is left. */
  method RestartBeforeDrain(prefix: string, suffix: string) returns (alive: nat, out: seq<string>)
    ensures alive == 1
    ensures out == Emit(View(prefix, suffix, Waiting, White), '◔') + [FinalLine] + Emit(View(prefix, suffix, Waiting, White), '●')
  {
    var g := RestartPending(prefix, suffix);
    ghost var first := g.out;
    SignalStep(g, 1);
    assert g.loops == [Inner(WaitingGlyphs, 1)] && g.out == first;
    assert WaitingGlyphs[1] == '●';
    InnerStep(g, 0, WaitingGlyphs, 1);
    alive, out := |g.loops|, g.out;
  }
}
