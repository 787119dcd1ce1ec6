/** The text commands typed after `:`: parsing a command line into an
    action, decoding the brush argument, and carrying an action out on the
    editor's canvas and a store of files. */
module Commands {
  import opened Text
  import opened Canvas
  import opened Codec

  /** The messages a command hands back to the editor. */
  datatype ResultMsg =
    | QuitMsg
    | CanvasLoaded(width: nat, height: nat, canvas: Grid)
    | BrushChanged(brush: Pixel)

  /** A loaded canvas has the shape its message announces. */
  predicate WellFormed(r: ResultMsg) {
    r.CanvasLoaded? ==> Shaped(r.canvas, r.width, r.height)
  }

  /** What a command line asks for. `Ignore` is an unknown verb; `Fault` is
      a line on which the command code panics. */
  datatype Action =
    | Quit
    | Save(path: Bytes)
    | Load(path: Bytes)
    | SetBrush(brush: Pixel)
    | Ignore
    | Fault

  predicate IsQuitWord(s: string) { s == "q" || s == "quit" }

  /** Whether `s` starts with `prefix`. */
  predicate HasPrefix(s: string, prefix: string) {
    |prefix| <= |s| && s[..|prefix|] == prefix
  }

  /** The brush argument: lower-cased, then either a code point written
      `\u<hex>` or `u+<hex>`, or else its first byte. None for an empty
      argument, where the code indexes a byte that is not there. */
  function DecodeBrush(arg: Bytes): (p: Option<Pixel>)
    ensures p.None? <==> arg == []
    ensures p.Some? && !HasPrefix(ToLowerAscii(arg), "\\u") && !HasPrefix(ToLowerAscii(arg), "u+")
            ==> p.value == LowerByte(arg[0]) as int
  {
    var lower := ToLowerAscii(arg);
    if (HasPrefix(lower, "\\u") || HasPrefix(lower, "u+")) && ParseHex(lower[2..]).Some? then
      Some(Int32(ParseHex(lower[2..]).value))
    else if |lower| == 0 then None
    else Some(lower[0] as int)
  }

  /** Whether an argument starts with `\u` or `u+`, in either case. */
  predicate CodePointPrefix(arg: string) {
    |arg| >= 2 && ((arg[0] == '\\' && LowerByte(arg[1]) == 'u') || (LowerByte(arg[0]) == 'u' && arg[1] == '+'))
  }

  /** The lower-cased argument starts with a code-point prefix exactly when
      the argument does, and its remainder is the lower-cased remainder. */
  lemma LowerPrefix(arg: Bytes)
    ensures CodePointPrefix(arg) <==> HasPrefix(ToLowerAscii(arg), "\\u") || HasPrefix(ToLowerAscii(arg), "u+")
    ensures |arg| >= 2 ==> ParseHex(ToLowerAscii(arg)[2..]) == ParseHex(arg[2..])
  {
    var lower := ToLowerAscii(arg);
    if |arg| >= 2 {
      assert lower[0] == LowerByte(arg[0]) && lower[1] == LowerByte(arg[1]);
      assert HasPrefix(lower, "\\u") <==> lower[0] == '\\' && lower[1] == 'u';
      assert HasPrefix(lower, "u+") <==> lower[0] == 'u' && lower[1] == '+';
      HexLower(arg[2..], lower[2..]);
    }
  }

  /** A prefixed argument whose remainder is a hexadecimal numeral within
      the 64-bit range selects that code point, cut to 32 bits. */
  lemma BrushCodePoint(arg: Bytes)
    requires CodePointPrefix(arg) && ParseHex(arg[2..]).Some?
    ensures DecodeBrush(arg) == Some(Int32(ParseHex(arg[2..]).value))
  {
    LowerPrefix(arg);
  }

  /** Any other non-empty argument selects its first byte, lower-cased. */
  lemma BrushFirstByte(arg: Bytes)
    requires |arg| > 0 && !(CodePointPrefix(arg) && ParseHex(arg[2..]).Some?)
    ensures DecodeBrush(arg) == Some(LowerByte(arg[0]) as int)
  {
    LowerPrefix(arg);
  }

  /** The switch on the verb of a command line; `rest` is what follows the first space. */
  function Dispatch(verb: string, rest: Bytes): (a: Action)
    ensures a.Save? ==> (verb == "s" || verb == "save") && a.path == rest
    ensures a.Load? ==> (verb == "l" || verb == "load") && a.path == rest
  {
    if IsQuitWord(verb) then Quit
    else if verb == "s" || verb == "save" then Save(rest)
    else if verb == "l" || verb == "load" then Load(rest)
    else if verb == "b" || verb == "brush" then
      match DecodeBrush(rest)
      case None => Fault
      case Some(p) => SetBrush(p)
    else Ignore
  }

  /** The parsing half of interpretCmd: `q` and `quit` alone quit; any
      other line is split at its first space into a verb and the rest. */
  function ParseCommand(command: Bytes): (a: Action)
    ensures ' ' !in command ==> a == (if IsQuitWord(command) then Quit else Fault)
  {
    SplitOnceParts(command, ' ');
    if IsQuitWord(command) then Quit
    else match SplitOnce(command, ' ')
      case None => Fault
      case Some((verb, rest)) =>
        BytesParts(command, verb, ' ', rest);
        Dispatch(verb, rest)
  }

  /** A line made of a verb without spaces, a space and the rest is
      dispatched on that verb with that rest. */
  lemma ParseVerb(command: Bytes, verb: string, rest: Bytes)
    requires command == verb + " " + rest && ' ' !in verb
    ensures ParseCommand(command) == Dispatch(verb, rest)
  {
    SplitOnceAt(verb, ' ', rest);
    assert command[|verb|] == ' ';
  }

  /** Only a `s`/`save` line saves and only a `l`/`load` line loads, to the
      path that follows the verb and its space. */
  lemma ParsedPath(command: Bytes)
    ensures ParseCommand(command).Save? ==> command == "s " + ParseCommand(command).path || command == "save " + ParseCommand(command).path
    ensures ParseCommand(command).Load? ==> command == "l " + ParseCommand(command).path || command == "load " + ParseCommand(command).path
  {
    SplitOnceParts(command, ' ');
    if !IsQuitWord(command) && SplitOnce(command, ' ').Some? {
      var verb, rest := SplitOnce(command, ' ').value.0, SplitOnce(command, ' ').value.1;
      assert command == verb + " " + rest;
    }
  }

  /** `q` and `quit` quit whatever follows them. */
  lemma ParseQuit(command: Bytes, rest: Bytes)
    requires command == "q " + rest || command == "quit " + rest
    ensures ParseCommand(command) == Quit
  {
    if command == "q " + rest {
      ParseVerb(command, "q", rest);
    } else {
      ParseVerb(command, "quit", rest);
    }
  }

  /** `s`/`save` takes everything after the first space as the path, spaces included. */
  lemma ParseSave(command: Bytes, path: Bytes)
    requires command == "s " + path || command == "save " + path
    ensures ParseCommand(command) == Save(path)
  {
    if command == "s " + path {
      ParseVerb(command, "s", path);
    } else {
      ParseVerb(command, "save", path);
    }
  }

  /** `l`/`load` takes everything after the first space as the path, spaces included. */
  lemma ParseLoad(command: Bytes, path: Bytes)
    requires command == "l " + path || command == "load " + path
    ensures ParseCommand(command) == Load(path)
  {
    if command == "l " + path {
      ParseVerb(command, "l", path);
    } else {
      ParseVerb(command, "load", path);
    }
  }

  /** `b`/`brush` decodes its argument; an empty argument faults. */
  lemma ParseBrush(command: Bytes, arg: Bytes)
    requires command == "b " + arg || command == "brush " + arg
    ensures ParseCommand(command) == if arg == [] then Fault else SetBrush(DecodeBrush(arg).value)
  {
    var verb := if command == "b " + arg then "b" else "brush";
    ParseVerb(command, verb, arg);
    assert Dispatch(verb, arg) == if arg == [] then Fault else SetBrush(DecodeBrush(arg).value);
  }

  /** Any other verb is ignored. */
  lemma ParseUnknown(command: Bytes, verb: string, rest: Bytes)
    requires command == verb + " " + rest && ' ' !in verb
    requires verb !in ["q", "quit", "s", "save", "l", "load", "b", "brush"]
    ensures ParseCommand(command) == Ignore
  {
    ParseVerb(command, verb, rest);
  }

  /** A code point written in hexadecimal after `u+` or `\u` becomes the brush. */
  lemma BrushHex(arg: Bytes, n: nat)
    requires n <= MaxInt64 && (arg == "u+" + Hex(n) || arg == "\\u" + Hex(n))
    ensures DecodeBrush(arg) == Some(Int32(n))
  {
    var lower := ToLowerAscii(arg);
    assert lower == arg by {
      forall i | 0 <= i < |arg|
        ensures lower[i] == arg[i]
      {
        if i >= 2 {
          assert arg[i] == Hex(n)[i - 2];
        }
      }
    }
    assert lower[2..] == Hex(n);
    HexRoundTrip(n);
  }

  /** The argument is lower-cased before its first byte is taken. */
  lemma BrushLowerCase()
    ensures DecodeBrush("A") == Some('a' as int)
  {
  }

  lemma Hex0041()
    ensures ParseHex("0041") == Some(0x41)
  {
    assert "0041"[..3] == "004" && "004"[..2] == "00" && "00"[..1] == "0" && "0"[..0] == "";
    assert HexValue("00") == 0;
    assert HexValue("004") == 4;
    assert HexValue("0041") == 0x41;
  }

  /** `\u` with leading zeros. */
  lemma BrushEscape()
    ensures DecodeBrush("\\u0041") == Some(0x41)
  {
    var lower := ToLowerAscii("\\u0041");
    assert lower == "\\u0041";
    assert lower[2..] == "0041";
    Hex0041();
  }

  lemma Hex1F600()
    ensures ParseHex("1f600") == Some(0x1F600)
  {
    assert "1f600"[..4] == "1f60" && "1f60"[..3] == "1f6" && "1f6"[..2] == "1f" && "1f"[..1] == "1" && "1"[..0] == "";
    assert HexValue("1") == 1;
    assert HexValue("1f") == 0x1F;
    assert HexValue("1f6") == 0x1F6;
    assert HexValue("1f60") == 0x1F60;
    assert HexValue("1f600") == 0x1F600;
  }

  /** An upper-case `U+` prefix and hex digits are lower-cased first. */
  lemma BrushUpperCasePrefix()
    ensures DecodeBrush("U+1F600") == Some(0x1F600)
  {
    var lower := ToLowerAscii("U+1F600");
    assert lower == "u+1f600";
    assert lower[2..] == "1f600";
    Hex1F600();
  }

  /** A prefix not followed by hex digits falls back to the first byte. */
  lemma BrushBadHex()
    ensures DecodeBrush("u+zz") == Some('u' as int)
  {
  }

  // ---------------------------------------------------------------------
  // Carrying a command out

  /** What running a command comes to: a message for the editor (or none)
      and the files afterwards, or a crash from a panic. */
  datatype Outcome = Done(msg: Option<ResultMsg>, files: map<Bytes, string>) | Crashed

  /** The effect half of interpretCmd on the editor's width, height and
      canvas, with the file system as a map from paths to their text. Save
      writes the header and the dump and sends no message; load sends the
      loaded canvas, or nothing when the file is missing or does not
      decode. */
  function Execute(action: Action, width: nat, height: nat, canvas: Grid, files: map<Bytes, string>): (r: Outcome)
    requires Covers(canvas, width, height)
    ensures r.Crashed? <==> action.Fault? || (action.Load? && action.path in files && DecodeCanvas(files[action.path]).Panicked?)
    ensures r.Done? && r.msg.Some? ==> WellFormed(r.msg.value)
    ensures r.Done? ==> (r.msg == Some(QuitMsg) <==> action.Quit?)
    ensures r.Done? && !action.Save? ==> r.files == files
    ensures r.Done? && action.Save? ==> r.msg.None? && r.files == files[action.path := SaveText(canvas, width, height)]
    ensures action.Ignore? ==> r == Done(None, files)
    ensures action.SetBrush? ==> r == Done(Some(BrushChanged(action.brush)), files)
    ensures action.Load? && action.path !in files ==> r == Done(None, files)
    ensures action.Load? && action.path in files ==>
              match DecodeCanvas(files[action.path])
              case Loaded(w, h, c) => r == Done(Some(CanvasLoaded(w, h, c)), files)
              case Failed(_) => r == Done(None, files)
              case Panicked => r == Crashed
  {
    match action
    case Quit => Done(Some(QuitMsg), files)
    case Save(path) => Done(None, files[path := SaveText(canvas, width, height)])
    case Load(path) =>
      if path !in files then Done(None, files)
      else
        match DecodeCanvas(files[path]) {
          case Loaded(w, h, c) => Done(Some(CanvasLoaded(w, h, c)), files)
          case Failed(_) => Done(None, files)
          case Panicked => Crashed
        }
    case SetBrush(p) => Done(Some(BrushChanged(p)), files)
    case Ignore => Done(None, files)
    case Fault => Crashed
  }

  /** interpretCmd: parse the line, then carry it out. `q` and `quit`
      quit, any other line without a space crashes, only a save line
      changes the files and only a load line sends a canvas. */
  function Interpret(command: Bytes, width: nat, height: nat, canvas: Grid, files: map<Bytes, string>): (r: Outcome)
    requires Covers(canvas, width, height)
    ensures IsQuitWord(command) ==> r == Done(Some(QuitMsg), files)
    ensures ' ' !in command && !IsQuitWord(command) ==> r == Crashed
    ensures r.Done? && r.files != files ==> HasPrefix(command, "s ") || HasPrefix(command, "save ")
    ensures r.Done? && r.msg.Some? && r.msg.value.CanvasLoaded? ==> HasPrefix(command, "l ") || HasPrefix(command, "load ")
  {
    ParsedPath(command);
    Execute(ParseCommand(command), width, height, canvas, files)
  }

  /** Saving a canvas of plain cells to a path and loading that path gives
      the same canvas back. */
  lemma SaveThenLoad(path: Bytes, c: Grid, width: nat, height: nat, files: map<Bytes, string>)
    requires Shaped(c, width, height) && width <= MaxInt64 && height <= MaxInt64
    requires forall y, x | 0 <= y < height && 0 <= x < width :: Plain(c[y][x])
    ensures Execute(Save(path), width, height, c, files).Done?
    ensures Execute(Load(path), width, height, c, Execute(Save(path), width, height, c, files).files)
         == Done(Some(CanvasLoaded(width, height, c)), Execute(Save(path), width, height, c, files).files)
  {
    SaveLoadRoundTrip(c, width, height);
  }

  /** Typing `save <path>` and then `load <path>` restores a canvas of plain cells. */
  lemma SaveThenLoadCommands(path: Bytes, save: Bytes, load: Bytes, c: Grid, width: nat, height: nat, files: map<Bytes, string>)
    requires save == "save " + path && load == "load " + path
    requires Shaped(c, width, height) && width <= MaxInt64 && height <= MaxInt64
    requires forall y, x | 0 <= y < height && 0 <= x < width :: Plain(c[y][x])
    ensures Interpret(save, width, height, c, files).Done?
    ensures Interpret(load, width, height, c, Interpret(save, width, height, c, files).files)
         == Done(Some(CanvasLoaded(width, height, c)), Interpret(save, width, height, c, files).files)
  {
    var saved := Execute(Save(path), width, height, c, files);
    assert Interpret(save, width, height, c, files) == saved by {
      ParseSave(save, path);
    }
    assert Interpret(load, width, height, c, saved.files) == Execute(Load(path), width, height, c, saved.files) by {
      ParseLoad(load, path);
    }
    SaveThenLoad(path, c, width, height, files);
  }
}
