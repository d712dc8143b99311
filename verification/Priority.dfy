// monobus.c: how the arguments of one OSC message become commands of one priority (_priority).

module Priority {
  import opened Bytes
  import opened Osc
  import opened OscReader
  import opened Compositor
  import opened Canvas

  /** The local variables of _priority. */
  datatype Area = Area(idx: nat, offx: int, offy: int, width: int, height: int)

  const WHOLE := Area(0, 0, 0, WIDTH_NET, HEIGHT_NET)

  function Unsigned32(n: int): word32 {
    n % 0x1_0000_0000
  }

  /** The length that a blob must have: a product of unsigned words, stored in an int32_t. */
  function TotalLength(width: int, height: int): int {
    Signed32(Unsigned32(Stride(Unsigned32(width)) * Unsigned32(height)))
  }

  /** The integers are offsets and sizes, in this order; further ones are ignored. */
  function TakeInt(area: Area, i: int): Area {
    var next := area.(idx := area.idx + 1);
    match area.idx
    case 0 => next.(offx := i)
    case 1 => next.(offy := i)
    case 2 => next.(width := i)
    case 3 => next.(height := i)
    case _ => next
  }

  function AreaAfter(area: Area, arg: Arg): Area {
    if Letter(arg) == 'i' as int && arg.Number32? then TakeInt(area, Signed32(arg.w)) else area
  }

  function SetOf(prio: nat, area: Area, blob: seq<byte>): Command {
    Command.Set(prio, area.offx, area.offy, area.width, area.height, blob)
  }

  /** The commands that the arguments cause, from the given local variables on. */
  function Commands(prio: nat, area: Area, set': bool, args: seq<Arg>): seq<Command>
    decreases |args|
  {
    if args == [] then
      if set' then [] else [Clear(prio, area.offx, area.offy, area.width, area.height)]
    else if args[0].Blob? && |args[0].data| >= TotalLength(area.width, area.height) then
      [SetOf(prio, area, args[0].data)] + Commands(prio, area, true, args[1..])
    else
      Commands(prio, AreaAfter(area, args[0]), set', args[1..])
  }

  /** What a message to /monobus/PRIO does. */
  function CommandsOf(prio: nat, args: seq<Arg>): seq<Command> {
    Commands(prio, WHOLE, false, args)
  }

  /** Without overflow it is the number of bytes in a row times the height, so that just enough bytes are accepted. */
  lemma TotalLengthIs(width: nat, height: nat)
    requires width < 0x8000_0000 && height < 0x8000_0000 && (width + 7) / 8 * height < 0x8000_0000
    ensures TotalLength(width, height) == (width + 7) / 8 * height
  {
    hide Stride, Unsigned32, Signed32;
    SmallStride(width);
    SmallWord(width);
    SmallWord(height);
    Product((width + 7) / 8, height);
    SmallWord((width + 7) / 8 * height);
  }

  lemma SmallStride(width: nat)
    requires width < 0x8000_0000
    ensures Stride(width) == (width + 7) / 8
  {}

  lemma SmallWord(n: nat)
    requires n < 0x8000_0000
    ensures Unsigned32(n) == n && Signed32(n) == n
  {}

  /** A bitmap whose size does not overflow an int32_t. */
  predicate InRange(area: Area) {
    && Computable(area.offx, area.offy, area.width, area.height)
    && (area.width > 0 && area.height > 0 ==> Stride(area.width) * area.height < 0x8000_0000)
  }

  /** Then the length test is enough for every pixel of the bitmap to be inside the blob. */
  lemma LengthTestSuffices(prio: nat, area: Area, blob: seq<byte>)
    requires prio < LAYERS && InRange(area) && |blob| >= TotalLength(area.width, area.height)
    ensures Proper(SetOf(prio, area, blob))
  {
    if area.width > 0 && area.height > 0 {
      assert Unsigned32(area.width) == area.width && Unsigned32(area.height) == area.height;
      var n := Stride(area.width) * area.height;
      assert 0 <= n by { Product(Stride(area.width), area.height); }
      assert Unsigned32(n) == n && Signed32(n) == n;
      var cmd := SetOf(prio, area, blob);
      forall row, col | OnDisplay(row, col) && Covers(cmd, row, col)
        ensures InBlob(cmd, row, col)
      {
        AccessInRange(row - cmd.offy, col - cmd.offx, area.width, area.height);
      }
    }
  }

  lemma Product(a: nat, b: nat)
    ensures 0 <= a * b
  {}

  /** _priority; the commands that the arguments cause must be such that C defines what they do. */
  method HandleArgs(canvas: Canvas, prio: nat, args: seq<Arg>)
    requires canvas.Valid() && prio < LAYERS && AllProper(CommandsOf(prio, args))
    modifies canvas, canvas.pixels
    ensures canvas.Valid() && canvas.history == old(canvas.history) + CommandsOf(prio, args)
  {
    hide Proper, TotalLength, AreaAfter;
    var area, set' := WHOLE, false;
    ghost var was := canvas.history;
    assert args[0..] == args && was == was + [];
    var i := 0;
    while i < |args|
      invariant 0 <= i <= |args| && canvas.Valid() && AllProper(Commands(prio, area, set', args[i..]))
      invariant was + CommandsOf(prio, args) == canvas.history + Commands(prio, area, set', args[i..])
    {
      var arg := args[i];
      assert args[i..][1..] == args[i + 1..] && args[i..][0] == arg;
      if arg.Blob? {
        AreaUnchanged(area, arg);
        if |arg.data| >= TotalLength(area.width, area.height) {
          ghost var rest := Commands(prio, area, true, args[i + 1..]);
          FirstProper(SetOf(prio, area, arg.data), rest);
          assert canvas.history + ([SetOf(prio, area, arg.data)] + rest) ==
                 canvas.history + [SetOf(prio, area, arg.data)] + rest;
          canvas.Draw(SetOf(prio, area, arg.data));
          set' := true;
        }
      } else {
        area := AreaAfter(area, arg);
      }
      i := i + 1;
    }
    if !set' {
      FirstProper(Clear(prio, area.offx, area.offy, area.width, area.height), []);
      canvas.Draw(Clear(prio, area.offx, area.offy, area.width, area.height));
    } else {
      assert canvas.history + [] == canvas.history;
    }
  }

  lemma FirstProper(cmd: Command, rest: seq<Command>)
    requires AllProper([cmd] + rest)
    ensures Proper(cmd) && AllProper(rest)
  {
    hide Proper;
    assert ([cmd] + rest)[0] == cmd;
    assert forall i :: 0 <= i < |rest| ==> rest[i] == ([cmd] + rest)[i + 1];
  }

  lemma AreaUnchanged(area: Area, arg: Arg)
    requires arg.Blob?
    ensures AreaAfter(area, arg) == area
  {}

  // ----- What the documentation promises -----

  function Int32(i: int): Arg {
    Number32('i' as int, Unsigned32(i))
  }

  lemma Int32RoundTrip(i: int)
    requires -0x8000_0000 <= i < 0x8000_0000
    ensures Signed32(Unsigned32(i)) == i
  {}

  /**
   * ",iiiib" sets the bitmap at the offset, if the blob is long enough for its size, and
   * clears that area otherwise.
   */
  lemma DocumentedSet(prio: nat, x: int, y: int, w: int, h: int, blob: seq<byte>)
    requires forall i :: i in [x, y, w, h] ==> -0x8000_0000 <= i < 0x8000_0000
    ensures CommandsOf(prio, [Int32(x), Int32(y), Int32(w), Int32(h), Blob(blob)]) ==
      if |blob| >= TotalLength(w, h) then [Command.Set(prio, x, y, w, h, blob)] else [Clear(prio, x, y, w, h)]
  {
    hide TotalLength;
    assert x in [x, y, w, h] && y in [x, y, w, h] && w in [x, y, w, h] && h in [x, y, w, h];
    Int32RoundTrip(x);
    Int32RoundTrip(y);
    Int32RoundTrip(w);
    Int32RoundTrip(h);
    hide Signed32, Unsigned32;
    var args := [Int32(x), Int32(y), Int32(w), Int32(h), Blob(blob)];
    var a4 := Area(4, x, y, w, h);
    assert args[1..][1..][1..][1..] == [Blob(blob)];
    assert Commands(prio, a4, false, [Blob(blob)]) ==
      if |blob| >= TotalLength(w, h) then [SetOf(prio, a4, blob)] + Commands(prio, a4, true, [])
      else Commands(prio, a4, false, []) by { assert [Blob(blob)][1..] == []; }
    CommandsStep(prio, WHOLE, args);
    CommandsStep(prio, Area(1, x, 0, WIDTH_NET, HEIGHT_NET), args[1..]);
    CommandsStep(prio, Area(2, x, y, WIDTH_NET, HEIGHT_NET), args[1..][1..]);
    CommandsStep(prio, Area(3, x, y, w, HEIGHT_NET), args[1..][1..][1..]);
  }

  lemma CommandsStep(prio: nat, area: Area, args: seq<Arg>)
    requires args != [] && !args[0].Blob?
    ensures Commands(prio, area, false, args) == Commands(prio, AreaAfter(area, args[0]), false, args[1..])
  {}

  /** The integers among the arguments, in order; every other argument but a blob is ignored. */
  function Integers(args: seq<Arg>): seq<int> {
    if args == [] then []
    else
      var init := Integers(args[..|args| - 1]);
      match args[|args| - 1]
      case Number32(letter, w) => if letter == 0x69 then init + [Signed32(w)] else init
      case _ => init
  }

  function Nth(ints: seq<int>, k: nat, default': int): int {
    if k < |ints| then ints[k] else default'
  }

  ghost predicate NoBlobs(args: seq<Arg>) {
    forall i :: 0 <= i < |args| ==> !args[i].Blob?
  }

  /** The local variables after arguments without blobs. */
  function AreaOf(ints: seq<int>): Area {
    Area(|ints|, Nth(ints, 0, 0), Nth(ints, 1, 0), Nth(ints, 2, 112), Nth(ints, 3, 16))
  }

  lemma {:induction false} CommandsAfter(prio: nat, pre: seq<Arg>, rest: seq<Arg>)
    requires NoBlobs(pre)
    ensures CommandsOf(prio, pre + rest) == Commands(prio, AreaOf(Integers(pre)), false, rest)
    decreases |pre|
  {
    if pre == [] {
      assert pre + rest == rest;
    } else {
      var init, last := pre[..|pre| - 1], pre[|pre| - 1];
      assert pre + rest == init + ([last] + rest);
      CommandsAfter(prio, init, [last] + rest);
      OneMoreInteger(init, last);
      CommandsStep(prio, AreaOf(Integers(init)), [last] + rest);
      assert ([last] + rest)[1..] == rest;
      assert pre == init + [last];
    }
  }

  lemma OneMoreInteger(init: seq<Arg>, last: Arg)
    requires !last.Blob?
    ensures AreaAfter(AreaOf(Integers(init)), last) == AreaOf(Integers(init + [last]))
  {
    assert (init + [last])[..|init|] == init;
    hide Signed32;
  }

  /**
   * What a message with one blob at its end does: up to four integers before it are offsets
   * and sizes, with the whole display as default; further ones, and arguments of other types,
   * are ignored. A blob alone is a bitmap of the whole display.
   */
  lemma OneBlob(prio: nat, pre: seq<Arg>, blob: seq<byte>)
    requires NoBlobs(pre)
    ensures var ints := Integers(pre);
      var x, y, w, h := Nth(ints, 0, 0), Nth(ints, 1, 0), Nth(ints, 2, 112), Nth(ints, 3, 16);
      CommandsOf(prio, pre + [Blob(blob)]) ==
      if |blob| >= TotalLength(w, h) then [Command.Set(prio, x, y, w, h, blob)] else [Clear(prio, x, y, w, h)]
  {
    hide TotalLength, Integers;
    CommandsAfter(prio, pre, [Blob(blob)]);
    assert [Blob(blob)][1..] == [];
  }

  /** And without a blob the area is cleared. */
  lemma NoBlob(prio: nat, args: seq<Arg>)
    requires NoBlobs(args)
    ensures var ints := Integers(args);
      CommandsOf(prio, args) ==
      [Clear(prio, Nth(ints, 0, 0), Nth(ints, 1, 0), Nth(ints, 2, 112), Nth(ints, 3, 16))]
  {
    hide Integers;
    CommandsAfter(prio, args, []);
    assert args + [] == args;
  }

  /** A bitmap of the whole display has 224 bytes. */
  lemma BlobAlone(prio: nat, blob: seq<byte>)
    ensures CommandsOf(prio, [Blob(blob)]) ==
            if |blob| >= 224 then [Command.Set(prio, 0, 0, 112, 16, blob)] else [Clear(prio, 0, 0, 112, 16)]
  {
    OneBlob(prio, [], blob);
    TotalLengthIs(112, 16);
    assert [] + [Blob(blob)] == [Blob(blob)];
  }

  /** "," clears the whole display at that priority: afterwards it shows nowhere. */
  lemma DocumentedClear(prio: nat, cmds: seq<Command>, row: int, col: int)
    requires prio < LAYERS && AllProper(cmds) && 0 <= row < HEIGHT_NET && 0 <= col < WIDTH_NET
    ensures AllProper(cmds + CommandsOf(prio, []))
    ensures Latest(cmds + CommandsOf(prio, []), prio, row, col).None?
  {
    assert CommandsOf(prio, []) == [Clear(prio, 0, 0, WIDTH_NET, HEIGHT_NET)];
  }

  // ----- From values through bytes to commands -----

  /** A message does the same after it was written and read again, short MIDI events notwithstanding. */
  lemma {:induction false} CommandsSurviveTheWire(prio: nat, area: Area, set': bool, args: seq<Arg>, got: seq<Arg>)
    requires AllReadAs(args, got)
    ensures Commands(prio, area, set', got) == Commands(prio, area, set', args)
    decreases |args|
  {
    hide TotalLength;
    if args != [] {
      assert ReadsAs(args[0], got[0]);
      forall i | 0 <= i < |args| - 1
        ensures ReadsAs(args[1..][i], got[1..][i])
      {
        assert ReadsAs(args[i + 1], got[i + 1]);
      }
      CommandsSurviveTheWire(prio, area, true, args[1..], got[1..]);
      CommandsSurviveTheWire(prio, AreaAfter(area, args[0]), set', args[1..], got[1..]);
    }
  }

  /** Any encoding of a message of typed arguments causes the commands of these arguments. */
  lemma MessageToCommands(prio: nat, bs: seq<byte>, path: seq<byte>, args: seq<Arg>)
    requires NulFree(path) && AllWellTyped(args) && IsMessage(bs, path, args)
    ensures var got := ReadMessage(bs, 0, |bs|, |bs|);
      got.Some? && CommandsOf(prio, got.value.value.args) == CommandsOf(prio, args)
  {
    MessagesHaveTheirSize(bs, path, args);
    assert bs[0..|bs|] == bs;
    MessageRoundTrip(bs, 0, path, args);
    hide ReadMessage, Commands;
    CommandsSurviveTheWire(prio, WHOLE, false, args, ReadMessage(bs, 0, |bs|, |bs|).value.value.args);
  }
}
