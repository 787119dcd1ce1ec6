/** The editor: its state, how each message changes it, and what it shows. */
module Editor {
  import opened Text
  import opened Canvas
  import opened Codec
  import opened Commands

  datatype MouseAction = Press | Release | Motion

  datatype MouseButton =
    | NoButton | Left | Middle | Right
    | WheelUp | WheelDown | WheelLeft | WheelRight
    | Backward | Forward | Button10 | Button11

  /** The messages the editor receives: the result of a command, a mouse
      event at a cell, a key (named by its key string, such as "enter",
      "ctrl+c" or "a"), or anything else. */
  datatype Msg =
    | Result(result: ResultMsg)
    | Mouse(x: nat, y: nat, action: MouseAction, button: MouseButton)
    | Key(key: Bytes)
    | Other

  /** What the editor asks the runtime for after a message: nothing, to
      quit, to run a command line, or nothing at all because it panicked. */
  datatype Effect = NoCmd | QuitCmd | RunCommand(command: Bytes) | Panic

  /** A press anywhere, or a motion with the left button held, on a cell of
      a `width` by `height` canvas. */
  predicate Paints(msg: Msg, width: nat, height: nat) {
    msg.Mouse?
    && (msg.action == Press || (msg.action == Motion && msg.button == Left))
    && msg.x < width && msg.y < height
  }

  /** The canvas with cell (x, y) set to `p`. */
  function Paint(c: Grid, x: nat, y: nat, p: Pixel): (r: Grid)
    requires y < |c| && x < |c[y]|
    ensures |r| == |c| && forall j | 0 <= j < |c| :: |r[j]| == |c[j]|
    ensures r[y][x] == p
    ensures forall j, i | 0 <= j < |c| && 0 <= i < |c[j]| && (j != y || i != x) :: r[j][i] == c[j][i]
  {
    var row: seq<Pixel> := c[y][x := p];
    c[y := row]
  }

  /** The UTF-8 bytes of the block cursor U+2588 that follows the typed command. */
  const Cursor: Bytes := [0xE2 as char, 0x96 as char, 0x88 as char]

  lemma CursorIsBlock()
    ensures Utf8("\U{2588}") == Cursor
  {
  }

  /** The line View adds below the canvas while a command is being typed:
      a colon, the command, the cursor and a newline. */
  function Prompt(active: bool, buffer: Bytes): (p: Bytes)
    ensures !active ==> p == []
    ensures active ==> |p| == |buffer| + 5 && p[0] == ':' && p[1..|buffer| + 1] == buffer
                       && p[|buffer| + 1..|buffer| + 4] == Cursor && p[|p| - 1] == '\n'
  {
    if active then ":" + buffer + Cursor + "\n" else []
  }

  class Model {
    var width: nat
    var height: nat
    var canvas: Grid
    var brush: Pixel
    var commandBuffer: Bytes
    var commandActive: bool

    /** The canvas has the size the editor records. */
    ghost predicate Valid()
      reads this
    {
      Shaped(canvas, width, height)
    }

    /** The startup state: an 80 by 50 blank canvas, the brush `#`, no command. */
    constructor ()
      ensures Valid() && width == 80 && height == 50
      ensures forall y, x | 0 <= y < 50 && 0 <= x < 80 :: canvas[y][x] == Space
      ensures brush == '#' as int && commandBuffer == [] && !commandActive
    {
      var c := NewCanvas(80, 50);
      width, height, canvas := 80, 50, c;
      brush := '#' as int;
      commandBuffer, commandActive := [], false;
    }

    /** The editor's reaction to one message, rule by rule in the order the
        editor tries them. */
    method Update(msg: Msg) returns (eff: Effect)
      requires Valid()
      requires msg.Result? ==> WellFormed(msg.result)
      modifies this
      ensures Valid()
      // results of commands
      ensures msg == Result(QuitMsg) ==> eff == QuitCmd && unchanged(this)
      ensures msg.Result? && msg.result.CanvasLoaded? ==>
                eff == NoCmd && width == msg.result.width && height == msg.result.height
                && canvas == msg.result.canvas && brush == old(brush)
                && commandBuffer == old(commandBuffer) && commandActive == old(commandActive)
      ensures msg.Result? && msg.result.BrushChanged? ==>
                eff == NoCmd && brush == msg.result.brush && width == old(width) && height == old(height)
                && canvas == old(canvas) && commandBuffer == old(commandBuffer) && commandActive == old(commandActive)
      // the mouse paints one cell with the brush, or nothing
      ensures msg.Mouse? ==>
                eff == NoCmd && width == old(width) && height == old(height) && brush == old(brush)
                && commandBuffer == old(commandBuffer) && commandActive == old(commandActive)
      ensures Paints(msg, old(width), old(height)) ==> canvas == Paint(old(canvas), msg.x, msg.y, old(brush))
      ensures !Paints(msg, old(width), old(height)) && !msg.Result? ==> canvas == old(canvas)
      // keys never touch the canvas
      ensures msg.Key? ==> width == old(width) && height == old(height) && canvas == old(canvas)
      // keys while a command is being typed
      ensures msg == Key("enter") && old(commandActive) ==>
                eff == RunCommand(old(commandBuffer)) && commandBuffer == [] && !commandActive && brush == old(brush)
      ensures msg == Key("backspace") && old(commandActive) && old(commandBuffer) == [] ==>
                eff == Panic && unchanged(this)
      ensures msg == Key("backspace") && old(commandActive) && old(commandBuffer) != [] ==>
                eff == NoCmd && commandBuffer == old(commandBuffer)[..|old(commandBuffer)| - 1]
                && commandActive && brush == old(brush)
      ensures msg == Key("ctrl+c") && old(commandActive) ==>
                eff == NoCmd && !commandActive && commandBuffer == old(commandBuffer) && brush == old(brush)
      ensures msg.Key? && old(commandActive) && msg.key !in {"enter", "backspace", "ctrl+c"} ==>
                eff == NoCmd && commandActive && commandBuffer == old(commandBuffer) + msg.key && brush == old(brush)
      // keys otherwise
      ensures msg == Key(":") && !old(commandActive) ==>
                eff == NoCmd && commandActive && commandBuffer == old(commandBuffer) && brush == old(brush)
      ensures msg.Key? && !old(commandActive) && msg.key in {"q", "ctrl+c"} ==> eff == QuitCmd && unchanged(this)
      ensures msg == Key("") && !old(commandActive) ==> eff == Panic && unchanged(this)
      ensures msg.Key? && !old(commandActive) && msg.key !in {":", "q", "ctrl+c", ""} ==>
                eff == NoCmd && brush == msg.key[0] as int && !commandActive && commandBuffer == old(commandBuffer)
      ensures msg.Other? ==> eff == NoCmd && unchanged(this)
    {
      match msg
      case Result(r) =>
        match r {
          case QuitMsg =>
            eff := QuitCmd;
          case CanvasLoaded(w, h, c) =>
            width, height, canvas := w, h, c;
            eff := NoCmd;
          case BrushChanged(b) =>
            brush := b;
            eff := NoCmd;
        }
      case Mouse(x, y, action, button) =>
        if action == Press {
          if x < width && y < height {
            canvas := Paint(canvas, x, y, brush);
          }
        } else if action == Motion {
          if button == Left && x < width && y < height {
            canvas := Paint(canvas, x, y, brush);
          }
        }
        eff := NoCmd;
      case Key(k) =>
        if commandActive && k == "enter" {
          var command := commandBuffer;
          commandBuffer := [];
          commandActive := false;
          eff := RunCommand(command);
        } else if commandActive && k == "backspace" {
          if |commandBuffer| == 0 {
            eff := Panic;
          } else {
            commandBuffer := commandBuffer[..|commandBuffer| - 1];
            eff := NoCmd;
          }
        } else if commandActive && k == "ctrl+c" {
          commandActive := false;
          eff := NoCmd;
        } else if commandActive {
          BytesConcat(commandBuffer, k);
          commandBuffer := commandBuffer + k;
          eff := NoCmd;
        } else if k == ":" {
          commandActive := true;
          eff := NoCmd;
        } else if k == "ctrl+c" || k == "q" {
          eff := QuitCmd;
        } else if |k| == 0 {
          eff := Panic;
        } else {
          brush := k[0] as int;
          eff := NoCmd;
        }
      case Other =>
        eff := NoCmd;
    }

    /** The screen: the canvas as dumpCanvas writes it, in UTF-8, then the
        prompt line while a command is being typed. */
    method View() returns (screen: Bytes)
      requires Valid()
      ensures screen == Utf8(DumpText(canvas, width, height)) + Prompt(commandActive, commandBuffer)
    {
      var text := DumpCanvas(canvas, width, height);
      var prompt := Prompt(commandActive, commandBuffer);
      BytesConcat(Utf8(text), prompt);
      screen := Utf8(text) + prompt;
    }
  }

  /** A session: `:` opens the command line, `q` is typed, enter runs it,
      and the quit message that comes back makes the editor quit. */
  method QuitByCommand() returns (eff: Effect)
    ensures eff == QuitCmd
  {
    var m := new Model();
    var e := m.Update(Key(":"));
    e := m.Update(Key("q"));
    e := m.Update(Key("enter"));
    assert e == RunCommand("q");
    var out := Interpret("q", m.width, m.height, m.canvas, map[]);
    eff := m.Update(Result(out.msg.value));
  }

  /** A session: a click on the startup canvas paints one cell with the brush `#`. */
  method ClickOnce() returns (pic: Grid)
    ensures Shaped(pic, 80, 50) && pic[2][3] == '#' as int
    ensures forall y, x | 0 <= y < 50 && 0 <= x < 80 && (y, x) != (2, 3) :: pic[y][x] == Space
  {
    var m := new Model();
    ghost var blank := m.canvas;
    var e := m.Update(Mouse(3, 2, Press, Left));
    pic := m.canvas;
    assert pic == Paint(blank, 3, 2, '#' as int);
  }

  /** The session goes on: `save <path>` writes the painted canvas and
      `load <path>` reads back the same picture. */
  method PaintSaveLoad(path: Bytes) returns (restored: Outcome)
    ensures restored.Done? && restored.msg.Some? && restored.msg.value.CanvasLoaded?
    ensures Shaped(restored.msg.value.canvas, 80, 50)
    ensures restored.msg.value.width == 80 && restored.msg.value.height == 50
    ensures restored.msg.value.canvas[2][3] == '#' as int
    ensures forall y, x | 0 <= y < 50 && 0 <= x < 80 && (y, x) != (2, 3) :: restored.msg.value.canvas[y][x] == Space
  {
    var pic := ClickOnce();
    assert forall y, x | 0 <= y < 50 && 0 <= x < 80 :: Plain(pic[y][x]) by {
      forall y, x | 0 <= y < 50 && 0 <= x < 80
        ensures Plain(pic[y][x])
      {
        if (y, x) != (2, 3) {
          assert pic[y][x] == Space;
        }
      }
    }
    BytesConcat("save ", path);
    BytesConcat("load ", path);
    var save: Bytes := "save " + path;
    var load: Bytes := "load " + path;
    var saved := Interpret(save, 80, 50, pic, map[]);
    SaveThenLoadCommands(path, save, load, pic, 80, 50, map[]);
    restored := Interpret(load, 80, 50, pic, saved.files);
  }
}
