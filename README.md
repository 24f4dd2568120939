# gopher — a command-line spinner, modelled in Dafny

The Go package `gopher` draws a little gopher face on the terminal as a loading
spinner: `` `( ◔ ౪◔)´ ``. A `Gopher` value has exported display fields (`Delay`,
`Prefix`, `Suffix`, `Activity`, `Color`), a private running/stopped state and a
one-slot `done` channel. `Start` spawns a render goroutine. On each pass it resolves
the glyphs of the current activity, and for each glyph it either returns (when a
signal is waiting in `done`) or clears the line and prints one frame. `Stop` puts a
signal in the channel, marks the gopher stopped and prints a closing line.

The project has three modules:

- `Text` (text.dfy) specifies the pieces of Go's standard library the package relies
  on:
  - `%d` formatting (`Itoa`), with its read-back `Atoi`;
  - `len` of a string in UTF-8 bytes (`ByteLen`);
  - the subset of `fmt.Sprintf` with the verbs `%s` and `%d` (`Sprintf`).
- `Gopher` (gopher.dfy) holds the package's parts:
  - the constants;
  - the glyph table (`Runes`);
  - frame composition (`Frame`, proved equal to the `Printf` of the format);
  - the clear sequence (`MoveLeft`, `EraseLine`);
  - one step of the render loop as a function (`LoopStep`) on a `Pass` value, saying
    where a goroutine stands;
  - the `Gopher` class, whose fields are the struct's fields plus:
    - `loops`, the render goroutines alive;
    - `out`, everything written to standard output, one entry per write.

  `Step(k)` runs goroutine `k` up to its next frame, in one call: the `select`, both
  writes of the clear sequence and the frame. Runs of the goroutines between calls to
  `Start`, `Stop` and field assignments are sequences of method calls on the object,
  with each frame's writes kept together.
- `Scenarios` (scenarios.dfy) holds client call sequences on a fresh gopher. Each one
  states exactly what ends up on standard output. The cases are:
  - a colour change;
  - double `Start`/`Stop`;
  - `Stop` before `Start`;
  - an activity change in the middle of a pass;
  - `Stop` followed at once by `Start`, with two goroutines alive.

Two details of the code decide the output:

- **The left move.** The clear sequence moves left by `len(g.Prefix+gopher+g.Suffix)`,
  where `gopher` is the format string itself: 29 UTF-8 bytes, or 26 code points, with
  its `%s`/`%d` verbs, not the text of the frame drawn last. The prefix and suffix read
  are the ones current when the next frame is drawn.
- **When the glyphs are resolved.** `runes()` runs at the start of every pass, before
  the `done` check, so with an unknown activity a goroutine panics even when a signal
  is waiting.

## Model

| member | source | states |
|---|---|---|
| Text.Itoa | gopher.go:144 | the `%d` numeral is non-empty; it starts with `-` exactly when the integer is negative; the rest is digits with no leading zero, for positive and negative integers alike, and the numeral of zero is `0` |
| Text.ItoaRoundTrip | gopher.go:144 | reading back the `%d` numeral gives the integer it was written from |
| Text.ByteLen | gopher.go:144 | `len` of a string is between one and four bytes per code point |
| Text.AsciiBytes | gopher.go:144 | `len` of an ASCII string equals its number of characters |
| Text.ByteLenAppend | gopher.go:144 | `len` of a concatenation is the sum of the lengths |
| Text.Sprintf | gopher.go:105 | the subset of `fmt.Sprintf` the package uses; its behaviour on verb-free text, `%s` and `%d` is stated by SprintfLiteral, SprintfOneStr and SprintfOneInt |
| Text.SprintfLiteral | gopher.go:105 | verb-free text of a format is copied to the output unchanged |
| Text.SprintfOneInt | gopher.go:144 | a format with one `%d` between verb-free text writes the text around the numeral |
| Text.SprintfOneStr | gopher.go:146 | a format with one `%s` between verb-free text writes the text around the argument |
| Gopher.Runes | gopher.go:126-139 | the glyphs exist exactly for the four defined activities; any other value gives the error "unknown activity"; a sequence has 2 or 4 glyphs, 4 only for Boring, and no glyph repeats |
| Gopher.RunesTable | gopher.go:31-36 | the exact glyphs of Waiting, Wondering, Boring and Loving, and the error for every larger value |
| Gopher.RunesInjective | gopher.go:31-36 | no two activities share a glyph sequence |
| Gopher.Frame | gopher.go:105 | one frame; FrameIsPrintf proves it is the `Printf` of the format, FrameShape states its layout |
| Gopher.FrameIsPrintf | gopher.go:105 | the frame is exactly what `Printf("\r"+gopher, Prefix, Color, glyph, glyph, Suffix)` writes |
| Gopher.FrameShape | gopher.go:14-17 | a frame starts with `\r` and the prefix, ends with the suffix, has the glyph at two fixed positions, and its length is determined by prefix, colour numeral and suffix |
| Gopher.FrameDeterminesGlyph | gopher.go:105 | frames with different glyphs differ, so consecutive frames of a pass are distinguishable |
| Gopher.TemplateBytes | gopher.go:16 | the format string is 29 bytes long in UTF-8 |
| Gopher.ClearCount | gopher.go:144 | the count `len(g.Prefix+gopher+g.Suffix)`; ClearCountBytes states its value and ClearCoversFrame its bound |
| Gopher.MoveLeft | gopher.go:144 | the cursor-left sequence; MoveLeftIsPrintf proves it is the `Fprintf` of `"\033[%dD"` |
| Gopher.ClearCountBytes | gopher.go:144 | the left move is the byte length of the prefix plus 29 plus the byte length of the suffix, so it depends on neither glyph nor colour |
| Gopher.ClearCoversFrame | gopher.go:142-147 | the left move is at least the number of visible characters of a frame with the same prefix and suffix |
| Gopher.MoveLeftIsPrintf | gopher.go:144 | the cursor-left sequence is what `Fprintf(w, "\033[%dD", n)` writes |
| Gopher.EraseLineIsPrintf | gopher.go:146 | the erase sequence is what `Fprintf(w, "%s[K", escape)` writes |
| Gopher.EraseLine | gopher.go:146 | the erase sequence; EraseLineIsPrintf proves it is the `Fprintf` of `"%s[K"` |
| Gopher.Emit | gopher.go:104-105 | the three writes of one frame: the cursor-left sequence, the erase sequence and the frame; Gopher.Gopher.Draw appends exactly these |
| Gopher.Select | gopher.go:99-107 | with a signal waiting, the goroutine consumes it, returns and draws nothing; otherwise it draws `runes[i]` and moves to the next index, or to the top of the outer loop after the last |
| Gopher.LoopStep | gopher.go:93-110 | a goroutine returns exactly when it consumes a signal, and never raises one; it draws exactly when it neither returns nor panics; an unknown activity at the top of a pass panics with the error, whether or not a signal waits; a panicked goroutine stays so; the glyph drawn is the current glyph of the pass, or the first glyph of the new activity |
| Gopher.StepIgnoresActivityMidPass | gopher.go:99-108 | inside a pass a step does not depend on the activity field |
| Gopher.StepAt | gopher.go:99-107 | from glyph `i` of a resolved sequence, a step without a signal draws that glyph and stands at glyph `i+1`, wrapping to the first |
| Gopher.Run | gopher.go:93-110 | the glyphs of the frames a goroutine draws over a run of steps without a signal; CycleOrder, PassFinishes and ActivityChange state what they are |
| Gopher.CycleAt | gopher.go:99-108 | the k-th glyph of the round-robin reference is `glyphs[(start+k) mod n]` |
| Gopher.CycleOrder | gopher.go:93-110 | while the activity stays fixed and no signal arrives, the frames are exactly the round-robin reference `Cycle` from the current position, whose k-th entry is `glyphs[(start+k) mod n]` by CycleAt |
| Gopher.PassFinishes | gopher.go:99-108 | a pass in progress completes with the glyphs it resolved, whatever the activity is set to meanwhile, and only then returns to the top |
| Gopher.ActivityChange | gopher.go:93-110 | an activity change takes effect at the next pass: the rest of the current pass, then the new activity's glyphs in order |
| Gopher.BoringCycle | gopher.go:34 | with the activity at Boring, five frames show ◷ ◶ ◵ ◴ ◷ |
| Gopher.Gopher.New | gopher.go:76-85 | a new gopher is stopped, with delay 1000 ms, Waiting, White, empty prefix and suffix, no signal, no goroutine, nothing written |
| Gopher.Gopher.Start | gopher.go:88-111 | a running gopher is left unchanged; a stopped one becomes running with exactly one more goroutine, standing at the top of its loop |
| Gopher.Gopher.Stop | gopher.go:114-120 | a stopped gopher is left unchanged; a running one places the signal, becomes stopped and writes the closing line with its newline; the goroutine count invariant is kept |
| Gopher.Gopher.String | gopher.go:123 | the face `String` returns is the one in the closing line, between the carriage return and padding and the message |
| Gopher.Gopher.ClearOutput | gopher.go:142-147 | appends the cursor-left sequence for the clear count, then the erase sequence, and nothing else |
| Gopher.Gopher.Finalize | gopher.go:150-152 | appends exactly the closing line and the newline `Println` adds |
| Gopher.Gopher.Draw | gopher.go:104-105 | appends the clear sequence and the frame built from the current prefix, colour and suffix |
| Gopher.Gopher.Iterate | gopher.go:99-107 | for goroutine `k` standing at index `i` of the glyphs it resolved, one inner-loop iteration changes the goroutines, the channel and the output exactly as `Select` says, and keeps the invariant |
| Gopher.Gopher.Step | gopher.go:93-110 | one step of goroutine `k` changes the goroutines, the channel and the output exactly as `LoopStep` says for the current activity and channel state: a returned goroutine is removed, and a drawn glyph appends its clear sequence and frame |
| Scenarios.ColorChange | gopher.go:99-118 | frames use the colour the field holds when each is drawn; with each frame's writes kept together, the closing line comes last, and no goroutine is left |
| Scenarios.StartTwiceStopTwice | gopher.go:88-120 | a second `Start` spawns no goroutine and a second `Stop` writes nothing |
| Scenarios.StopBeforeStart | gopher.go:114-120 | stopping a gopher that never ran writes nothing and leaves no goroutine |
| Scenarios.ActivityToLoving | gopher.go:94-108 | after an activity change in mid-pass, the pass ends with the old glyphs, then ♡ and ❤ follow |
| Scenarios.RestartPending | gopher.go:88-120 | `Stop` followed at once by `Start` leaves two goroutines alive with the signal still waiting |
| Scenarios.RestartBeforeDrain | gopher.go:99-108 | of those two goroutines, the first to step takes the signal, the other goes on drawing, and one is left alive |

## Left out

- Concurrency: goroutines run only when `Step` is called, one step at a time. Data races
  between the render goroutine and unsynchronised field writes are not modelled.
- `Delay` and `time.Sleep`: the delay is stored but has no effect, since the model has no
  clock.
- Gopher.Gopher.Stop: requires that no signal is waiting while the gopher runs. In Go a
  second `Stop`, after `Stop`, `Start` and before either goroutine has taken the first
  signal, blocks on the full one-slot channel until one of the live goroutines takes the
  pending signal; the model cannot show a call that waits on another goroutine.
- Gopher.Gopher.Step: one step (the `select`, the two writes of the clear sequence and the
  frame) is atomic, so a `Stop` that runs between a frame's writes, which in Go can put
  the closing line between the clear sequence and the frame, is not represented.
- The writer `w`: the package writes the clear sequence to `w` and the frames and closing
  line to standard output. `w` is always `os.Stdout`, so both go to the one trace `out`.
- `panic`: a goroutine that meets an unknown activity becomes `Panicked` and stays so. The
  process crash that follows in Go is not modelled.
- Text.Sprintf: only `%s` and `%d` with arguments of the matching kind, the verbs the
  package uses; other verbs, widths and mismatched arguments are not modelled.
- Strings are sequences of Unicode code points; Go strings holding invalid UTF-8 are not
  modelled.
- The stringer-generated `activity.String()` (`go:generate`) is not part of this model.
- The setters `SetActivity`, `SetColor`, `SetPrefix` and `SetSuffix` called in
  examples/main.go are not defined in gopher.go; the scenarios assign the exported fields
  directly, as the package allows.
- How a terminal renders the escape sequences is not modelled. Only the bytes written are.
