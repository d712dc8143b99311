// osc.lv2/osc.lv2/reader.h: decoding a message from a buffer.

module OscReader {
  import opened Bytes
  import opened Osc

  // ----- What the decoders get from the bytes -----

  /** There is a zero byte at or behind index at, so that strlen ends inside the memory. */
  predicate Terminated(mem: seq<byte>, at: nat) {
    exists i :: at <= i < |mem| && mem[i] == 0
  }

  /** strlen */
  function StrLen(mem: seq<byte>, at: nat): (n: nat)
    requires Terminated(mem, at)
    ensures at + n < |mem| && mem[at + n] == 0 && NulFree(mem[at..at + n])
    decreases |mem| - at
  {
    if mem[at] == 0 then 0 else
      var n := 1 + StrLen(mem, at + 1);
      assert mem[at..at + n] == [mem[at]] + mem[at + 1..at + n];
      n
  }

  lemma {:induction false} StrLenIs(mem: seq<byte>, at: nat, n: nat)
    requires at + n < |mem| && mem[at + n] == 0 && NulFree(mem[at..at + n])
    ensures Terminated(mem, at) && StrLen(mem, at) == n
    decreases n
  {
    assert Terminated(mem, at);
    if n > 0 {
      assert mem[at] == mem[at..at + n][0];
      assert mem[at + 1..at + n] == mem[at..at + n][1..];
      StrLenIs(mem, at + 1, n - 1);
    }
  }

  /** A decoded value and the new read position. */
  datatype Got<T> = Got(value: T, ptr: nat)

  function GetBytes(mem: seq<byte>, ptr: nat, end: nat, n: nat): Option<Got<seq<byte>>>
    requires end <= |mem|
  {
    if ptr + n > end then None else Some(Got(mem[ptr..ptr + n], ptr + n))
  }

  /** A string that does not end inside the memory is not part of this model: the code would read on. */
  function GetText(mem: seq<byte>, ptr: nat, end: nat): Option<Got<seq<byte>>>
    requires end <= |mem|
  {
    if !Terminated(mem, ptr) then None
    else
      var n := StrLen(mem, ptr);
      if ptr + Padded(n + 1) > end then None else Some(Got(mem[ptr..ptr + n], ptr + Padded(n + 1)))
  }

  /** The size is signed; what the code does for negative ones is not part of this model. */
  function GetBlob(mem: seq<byte>, ptr: nat, end: nat): Option<Got<seq<byte>>>
    requires end <= |mem|
  {
    if ptr + 4 > end then None
    else
      var n := Signed32(FromBe32(mem[ptr..ptr + 4]));
      if n < 0 || ptr + 4 + Padded(n) > end then None
      else Some(Got(mem[ptr + 4..ptr + 4 + n], ptr + 4 + Padded(n)))
  }

  /** lv2_osc_reader_arg_raw: the argument for the letter t, or NULL. */
  function GetArg(mem: seq<byte>, t: byte, ptr: nat, end: nat): Option<Got<Arg>>
    requires end <= |mem|
  {
    if IsText(t) then
      match GetText(mem, ptr, end)
      case Some(g) => Some(Got(Text(t, g.value), g.ptr))
      case None => None
    else if t == 'b' as int then
      match GetBlob(mem, ptr, end)
      case Some(g) => Some(Got(Blob(g.value), g.ptr))
      case None => None
    else if IsFlag(t) then
      Some(Got(Flag(t), ptr))
    else
      match GetBytes(mem, ptr, end, if IsNumber64(t) then 8 else 4)
      case Some(g) => Some(Got(FixedArg(t, g.value), g.ptr))
      case None => None
  }

  function FixedArg(t: byte, bs: seq<byte>): Arg
    requires if IsNumber64(t) then |bs| == 8 else |bs| == 4
  {
    if IsNumber64(t) then Number64(t, FromBe64(bs))
    else if t == 'm' as int then Midi(bs)
    else if t == 'c' as int then Char(FromBe32(bs) % 0x100)
    else if t == 'r' as int then Rgba(bs[0], bs[1], bs[2], bs[3])
    else Number32(t, FromBe32(bs))
  }

  // ----- One argument there and back -----

  /**
   * What reading gives for an argument that was written: the same, but MIDI events always
   * come back with four bytes.
   */
  predicate ReadsAs(arg: Arg, got: Arg) {
    if arg.Midi? then got.Midi? && |got.m| == 4 && |arg.m| <= 4 && got.m[..|arg.m|] == arg.m
    else got == arg
  }

  lemma TextRoundTrip(mem: seq<byte>, at: nat, end: nat, s: seq<byte>)
    requires NulFree(s) && at + TextSize(s) <= end <= |mem| && mem[at..at + TextSize(s)] == TextBytes(s)
    ensures GetText(mem, at, end) == Some(Got(s, at + TextSize(s)))
  {
    var bs := mem[at..at + TextSize(s)];
    assert mem[at..at + |s|] == bs[..|s|];
    assert mem[at + |s|] == bs[|s|] == 0;
    StrLenIs(mem, at, |s|);
  }

  lemma CharRoundTrip(c: byte)
    ensures FromBe32(Be32(CharWord(c))) % 0x100 == c
  {
    Be32RoundTrip(CharWord(c));
  }

  lemma ArgRoundTrip(mem: seq<byte>, at: nat, end: nat, arg: Arg)
    requires WellTyped(arg) && at + ArgSize(arg) <= end <= |mem|
    requires IsArg(mem[at..at + ArgSize(arg)], arg)
    ensures var g := GetArg(mem, Letter(arg), at, end);
      g.Some? && g.value.ptr == at + ArgSize(arg) && ReadsAs(arg, g.value.value)
  {
    hide Be32, Be64, FromBe32, FromBe64, TextBytes, StrLen;
    match arg
    case Text(_, s) => TextRoundTrip(mem, at, end, s);
    case Blob(data) =>
      SliceOfSlice(mem, at, at + ArgSize(arg), 0, 4);
      SliceOfSlice(mem, at, at + ArgSize(arg), 4, 4 + |data|);
      Be32RoundTrip(|data|);
    case Number32(_, w) => Be32RoundTrip(w);
    case Number64(_, v) => Be64RoundTrip(v);
    case Char(c) => CharRoundTrip(c);
    case _ =>
  }

  // ----- Messages -----

  /**
   * What OSC_READER_MESSAGE_FOREACH visits: typ is the position in the type tag string.
   * An argument is decoded before the end test. The position after the last one is returned too.
   */
  function ReadArgs(mem: seq<byte>, typ: nat, ptr: nat, end: nat, argEnd: nat): Got<seq<Arg>>
    requires end <= |mem| && Terminated(mem, typ)
    decreases |mem| - typ
  {
    match GetArg(mem, mem[typ], ptr, end)
    case None => Got([], FailedAt(mem[typ], ptr, end))
    case Some(g) =>
      if mem[typ] == 0 || g.ptr > argEnd then Got([], g.ptr)
      else
        var rest := ReadArgs(mem, typ + 1, g.ptr, end, argEnd);
        Got([g.value] + rest.value, rest.ptr)
  }

  /** A blob that does not fit fails behind its size. */
  function FailedAt(t: byte, ptr: nat, end: nat): nat {
    if t == 'b' as int && ptr + 4 <= end then ptr + 4 else ptr
  }

  datatype Message = Message(path: seq<byte>, args: seq<Arg>)

  /** The path, and where the letters of the arguments and the arguments themselves start. */
  datatype Begun = Begun(path: seq<byte>, typ: nat, args: nat)

  /** lv2_osc_reader_arg_begin for a message of len bytes at ptr: NULL also if the first argument does not decode. */
  function Begin(mem: seq<byte>, ptr: nat, end: nat, len: nat): (b: Option<Begun>)
    requires end <= |mem|
    ensures b.Some? ==> Terminated(mem, b.value.typ)
  {
    if ptr + len > end then None
    else match GetText(mem, ptr, end)
      case None => None
      case Some(path) =>
        match GetText(mem, path.ptr, end)
        case None => None
        case Some(fmt) =>
          TextIsTerminated(mem, path.ptr, end);
          if mem[path.ptr] != COMMA || GetArg(mem, mem[path.ptr + 1], fmt.ptr, end).None? then None
          else Some(Begun(path.value, path.ptr + 1, fmt.ptr))
  }

  /** A message and the loop over its arguments. */
  function ReadMessage(mem: seq<byte>, ptr: nat, end: nat, len: nat): Option<Got<Message>>
    requires end <= |mem|
  {
    match Begin(mem, ptr, end, len)
    case None => None
    case Some(b) =>
      var args := ReadArgs(mem, b.typ, b.args, end, ptr + len);
      Some(Got(Message(b.path, args.value), args.ptr))
  }

  ghost predicate AllReadAs(args: seq<Arg>, got: seq<Arg>) {
    |args| == |got| && forall i :: 0 <= i < |args| ==> ReadsAs(args[i], got[i])
  }

  lemma {:induction false} ArgsRoundTrip(mem: seq<byte>, typ: nat, at: nat, end: nat, args: seq<Arg>)
    requires AllWellTyped(args)
    requires at + ArgsSize(args) <= end <= |mem| && IsArgs(mem[at..at + ArgsSize(args)], args)
    requires typ + |args| < |mem| && mem[typ..typ + |args|] == Letters(args) && mem[typ + |args|] == 0
    ensures Terminated(mem, typ)
    ensures var got := ReadArgs(mem, typ, at, end, end);
      AllReadAs(args, got.value) && got.ptr == at + ArgsSize(args)
    decreases |args|
  {
    hide IsArg, GetArg, ReadsAs, WellTyped, ArgSize, Letter, ReadArgs, AllReadAs;
    assert Terminated(mem, typ);
    if args == [] {
      ReadNothing(mem, typ, at, end);
    } else {
      var n := ArgSize(args[0]);
      FirstArg(mem, at, args);
      ArgRoundTrip(mem, at, end, args[0]);
      LetterNotNul(args[0]);
      FirstLetter(mem, typ, args);
      ArgsRoundTrip(mem, typ + 1, at + n, end, args[1..]);
      ReadOne(mem, typ, at, end, args);
    }
  }

  lemma ReadNothing(mem: seq<byte>, typ: nat, at: nat, end: nat)
    requires end <= |mem| && typ < |mem| && mem[typ] == 0
    ensures ReadArgs(mem, typ, at, end, end) == Got([], at) && AllReadAs([], [])
  {}

  lemma ReadOne(mem: seq<byte>, typ: nat, at: nat, end: nat, args: seq<Arg>)
    requires end <= |mem| && args != [] && Terminated(mem, typ + 1) && Terminated(mem, typ) && mem[typ] != 0
    requires var g := GetArg(mem, mem[typ], at, end);
      && g.Some? && g.value.ptr <= end && ReadsAs(args[0], g.value.value)
      && AllReadAs(args[1..], ReadArgs(mem, typ + 1, g.value.ptr, end, end).value)
    ensures AllReadAs(args, ReadArgs(mem, typ, at, end, end).value)
    ensures ReadArgs(mem, typ, at, end, end).ptr ==
      ReadArgs(mem, typ + 1, GetArg(mem, mem[typ], at, end).value.ptr, end, end).ptr
  {
    hide GetArg, ReadsAs;
    var got := ReadArgs(mem, typ, at, end, end).value;
    forall i | 0 <= i < |args|
      ensures ReadsAs(args[i], got[i])
    {
      if i > 0 {
        assert args[i] == args[1..][i - 1] && got[i] == got[1..][i - 1];
      }
    }
  }

  lemma FirstArg(mem: seq<byte>, at: nat, args: seq<Arg>)
    requires args != [] && at + ArgsSize(args) <= |mem| && IsArgs(mem[at..at + ArgsSize(args)], args)
    ensures ArgsSize(args) == ArgSize(args[0]) + ArgsSize(args[1..])
    ensures IsArg(mem[at..at + ArgSize(args[0])], args[0])
    ensures IsArgs(mem[at + ArgSize(args[0])..at + ArgsSize(args)], args[1..])
  {
    hide IsArg, ArgSize;
    var n, all := ArgSize(args[0]), ArgsSize(args);
    SliceOfSlice(mem, at, at + all, 0, n);
    SliceOfSlice(mem, at, at + all, n, all);
    assert mem[at..at + all][..n] == mem[at..at + all][0..n];
    assert mem[at..at + all][n..] == mem[at..at + all][n..all];
    hide IsArgs, ArgsSize;
  }

  lemma FirstLetter(mem: seq<byte>, typ: nat, args: seq<Arg>)
    requires args != [] && typ + |args| <= |mem| && mem[typ..typ + |args|] == Letters(args)
    ensures mem[typ] == Letter(args[0]) && mem[typ + 1..typ + |args|] == Letters(args[1..])
  {
    hide Letter;
    assert mem[typ] == mem[typ..typ + |args|][0];
    assert mem[typ + 1..typ + |args|] == mem[typ..typ + |args|][1..];
  }

  lemma LetterNotNul(arg: Arg)
    requires WellTyped(arg)
    ensures Letter(arg) != 0
  {}

  /** Reading what was written gives the same path and arguments, and ends at the end of the packet. */
  lemma MessageRoundTrip(mem: seq<byte>, at: nat, path: seq<byte>, args: seq<Arg>)
    requires NulFree(path) && AllWellTyped(args)
    requires at + MessageSize(path, args) <= |mem|
    requires IsMessage(mem[at..at + MessageSize(path, args)], path, args)
    ensures match ReadMessage(mem, at, at + MessageSize(path, args), MessageSize(path, args))
            case None => false
            case Some(got) =>
              got.ptr == at + MessageSize(path, args) && got.value.path == path && AllReadAs(args, got.value.args)
  {
    hide IsArgs, AllWellTyped, ArgsSize, TextBytes, TextSize, Begin, ReadArgs, AllReadAs, IsMessage, MessageSize,
         NulFree;
    BeginRoundTrip(mem, at, path, args);
    var end := at + MessageSize(path, args);
    MessageParts(mem, at, path, args);
    FormatNulFree(args);
    FormatBytes(mem, at + TextSize(path), args);
    ArgsRoundTrip(mem, at + TextSize(path) + 1, at + TextSize(path) + TextSize(Format(args)), end, args);
  }

  lemma BeginRoundTrip(mem: seq<byte>, at: nat, path: seq<byte>, args: seq<Arg>)
    requires NulFree(path) && AllWellTyped(args)
    requires at + MessageSize(path, args) <= |mem|
    requires IsMessage(mem[at..at + MessageSize(path, args)], path, args)
    ensures Begin(mem, at, at + MessageSize(path, args), MessageSize(path, args))
      == Some(Begun(path, at + TextSize(path) + 1, at + TextSize(path) + TextSize(Format(args))))
  {
    hide IsArgs, WellTyped, ArgsSize, TextBytes, TextSize, Format, GetText, GetArg, IsMessage, MessageSize;
    var end := at + MessageSize(path, args);
    MessageParts(mem, at, path, args);
    TextRoundTrip(mem, at, end, path);
    FormatNulFree(args);
    TextRoundTrip(mem, at + TextSize(path), end, Format(args));
    FormatBytes(mem, at + TextSize(path), args);
    FirstDecodes(mem, at + TextSize(path) + 1, at + TextSize(path) + TextSize(Format(args)), end, args);
  }

  lemma FirstDecodes(mem: seq<byte>, typ: nat, at: nat, end: nat, args: seq<Arg>)
    requires AllWellTyped(args)
    requires at + ArgsSize(args) <= end <= |mem| && IsArgs(mem[at..at + ArgsSize(args)], args)
    requires typ + |args| < |mem| && mem[typ..typ + |args|] == Letters(args) && mem[typ + |args|] == 0
    ensures GetArg(mem, mem[typ], at, end).Some?
  {
    hide GetArg, IsArg, IsArgs, ReadsAs, WellTyped, ArgSize, Letter;
    if args == [] {
      NothingDecodes(mem, at, end);
    } else {
      FirstArg(mem, at, args);
      ArgRoundTrip(mem, at, end, args[0]);
      FirstLetter(mem, typ, args);
    }
  }

  lemma NothingDecodes(mem: seq<byte>, at: nat, end: nat)
    requires end <= |mem|
    ensures GetArg(mem, 0, at, end) == Some(Got(Flag(0), at))
  {}

  lemma MessageParts(mem: seq<byte>, at: nat, path: seq<byte>, args: seq<Arg>)
    requires at + MessageSize(path, args) <= |mem|
    requires IsMessage(mem[at..at + MessageSize(path, args)], path, args)
    ensures var p, f, end := at + TextSize(path), at + TextSize(path) + TextSize(Format(args)),
      at + MessageSize(path, args);
      && p <= f <= end && end == f + ArgsSize(args)
      && mem[at..p] == TextBytes(path) && mem[p..f] == TextBytes(Format(args)) && IsArgs(mem[f..end], args)
  {
    hide IsArgs, ArgsSize, TextBytes, TextSize, Format;
    var p, f, end := TextSize(path), TextSize(Format(args)), at + MessageSize(path, args);
    SliceOfSlice(mem, at, end, 0, p);
    SliceOfSlice(mem, at, end, p, p + f);
    SliceOfSlice(mem, at, end, p + f, end - at);
  }

  lemma FormatNulFree(args: seq<Arg>)
    requires AllWellTyped(args)
    ensures NulFree(Format(args))
  {
    forall i | 0 <= i < |args|
      ensures Letters(args)[i] != 0
    {
      LetterNotNul(args[i]);
    }
  }

  lemma FormatBytes(mem: seq<byte>, at: nat, args: seq<Arg>)
    requires at + TextSize(Format(args)) <= |mem|
    requires mem[at..at + TextSize(Format(args))] == TextBytes(Format(args))
    ensures at + 1 + |args| < |mem| && mem[at] == COMMA
    ensures mem[at + 1..at + 1 + |args|] == Letters(args) && mem[at + 1 + |args|] == 0
  {
    var n := |Format(args)|;
    var bs := mem[at..at + TextSize(Format(args))];
    assert bs[..n] == Format(args) && bs[n] == 0;
    SliceOfSlice(mem, at, at + TextSize(Format(args)), 1, n);
    assert bs[1..n] == bs[..n][1..] == Letters(args);
    assert mem[at] == bs[..n][0] && mem[at + n] == bs[n];
  }

  /** The arguments come back unchanged exactly if all MIDI events have four bytes. */
  lemma RoundTripIsExact(args: seq<Arg>, got: seq<Arg>)
    requires AllReadAs(args, got)
    ensures got == args <==> forall i :: 0 <= i < |args| && args[i].Midi? ==> |args[i].m| == 4
  {
    if forall i :: 0 <= i < |args| && args[i].Midi? ==> |args[i].m| == 4 {
      forall i | 0 <= i < |args|
        ensures got[i] == args[i]
      {
        assert ReadsAs(args[i], got[i]);
        if args[i].Midi? {
          assert got[i].m == got[i].m[..4];
        }
      }
    } else {
      var i :| 0 <= i < |args| && args[i].Midi? && |args[i].m| != 4;
      assert ReadsAs(args[i], got[i]);
    }
  }

  // ----- The reader -----

  /** LV2_OSC_Arg */
  class ArgRecord {
    var typ: nat
    var size: nat
    var value: Arg
    var path: seq<byte>
    var end: nat

    constructor ()
    {
      typ, size, value, path, end := 0, 0, Flag(0), [], 0;
    }
  }

  /** The size field: the bytes of the value, or what it was before for letters without data. */
  function SizeField(arg: Arg, before: nat): nat {
    match arg
    case Number64(_, _) => 8
    case Text(_, s) => |s| + 1
    case Blob(data) => |data|
    case Flag(_) => before
    case _ => 4
  }

  /** LV2_OSC_Reader; mem is all the memory that can be read, end the end of the packet. */
  class Reader {
    const mem: seq<byte>
    const end: nat
    var ptr: nat

    ghost predicate Valid()
      reads this
    {
      ptr <= end <= |mem|
    }

    constructor (mem: seq<byte>, at: nat, size: nat)
      requires at + size <= |mem|
      ensures Valid() && this.mem == mem && ptr == at && end == at + size
    {
      this.mem := mem;
      ptr := at;
      end := at + size;
    }

    predicate Overflow(size: nat)
      reads this
    {
      ptr + size > end
    }

    /** The next n bytes: what the decoders of fixed size do. */
    method Take(n: nat) returns (bs: Option<seq<byte>>)
      requires Valid()
      modifies this
      ensures Valid()
      ensures match GetBytes(mem, old(ptr), end, n)
              case Some(g) => bs == Some(g.value) && ptr == g.ptr
              case None => bs == None && ptr == old(ptr)
    {
      if Overflow(n) {
        return None;
      }
      bs := Some(mem[ptr..ptr + n]);
      ptr := ptr + n;
    }

    /** lv2_osc_reader_get_string */
    method GetString() returns (s: Option<seq<byte>>)
      requires Valid()
      modifies this
      ensures Valid()
      ensures match GetText(mem, old(ptr), end)
              case Some(g) => s == Some(g.value) && ptr == g.ptr
              case None => s == None && ptr == old(ptr)
    {
      var n := 0;
      while ptr + n < |mem| && mem[ptr + n] != 0
        invariant ptr + n <= |mem| && NulFree(mem[ptr..ptr + n])
        decreases |mem| - n
      {
        assert mem[ptr..ptr + n + 1] == mem[ptr..ptr + n] + [mem[ptr + n]];
        n := n + 1;
      }
      if ptr + n == |mem| {
        assert mem[ptr..] == mem[ptr..ptr + n];
        NotTerminated(mem, ptr);
        return None;
      }
      StrLenIs(mem, ptr, n);
      if Overflow(Padded(n + 1)) {
        return None;
      }
      s := Some(mem[ptr..ptr + n]);
      ptr := ptr + Padded(n + 1);
    }

    /** lv2_osc_reader_get_blob */
    method GetBlobBody() returns (b: Option<seq<byte>>)
      requires Valid()
      modifies this
      ensures Valid()
      ensures match GetBlob(mem, old(ptr), end)
              case Some(g) => b == Some(g.value) && ptr == g.ptr
              case None => b == None && ptr == FailedAt('b' as int, old(ptr), end)
    {
      hide FromBe32;
      var bs := Take(4);
      if bs == None {
        return None;
      }
      var n := Signed32(FromBe32(bs.value));
      if n < 0 || Overflow(Padded(n)) {
        return None;
      }
      b := Some(mem[ptr..ptr + n]);
      ptr := ptr + Padded(n);
    }

    /** lv2_osc_reader_arg_raw */
    method ArgRaw(arg: ArgRecord) returns (ok: bool)
      requires Valid() && arg.typ < |mem|
      modifies this, arg`value, arg`size
      ensures Valid()
      ensures match GetArg(mem, mem[arg.typ], old(ptr), end)
              case Some(g) => ok && arg.value == g.value && ptr == g.ptr &&
                arg.size == SizeField(g.value, old(arg.size))
              case None => !ok && ptr == FailedAt(mem[arg.typ], old(ptr), end)
    {
      hide GetText, GetBlob;
      var t := mem[arg.typ];
      if IsText(t) {
        var s := GetString();
        if s == None {
          return false;
        }
        arg.value, arg.size := Text(t, s.value), |s.value| + 1;
      } else if t == 'b' as int {
        var b := GetBlobBody();
        if b == None {
          return false;
        }
        arg.value, arg.size := Blob(b.value), |b.value|;
      } else if IsFlag(t) {
        arg.value := Flag(t);
      } else {
        var bs := Take(if IsNumber64(t) then 8 else 4);
        if bs == None {
          return false;
        }
        arg.value, arg.size := FixedArg(t, bs.value), |bs.value|;
      }
      return true;
    }

    /** lv2_osc_reader_arg_is_end */
    predicate ArgIsEnd(arg: ArgRecord)
      requires arg.typ < |mem|
      reads this, arg
    {
      mem[arg.typ] == 0 || ptr > arg.end
    }

    /** OSC_READER_MESSAGE_FOREACH, after arg_begin has decoded the first argument, from index start. */
    method Foreach(arg: ArgRecord, ghost start: nat) returns (args: seq<Arg>)
      requires Valid() && Terminated(mem, arg.typ) && arg.typ < |mem|
      requires GetArg(mem, mem[arg.typ], start, end) == Some(Got(arg.value, ptr))
      modifies this, arg`value, arg`size, arg`typ
      ensures Valid()
      ensures Got(args, ptr) == ReadArgs(mem, old(arg.typ), start, end, arg.end)
    {
      hide GetArg, ReadArgs, SizeField;
      ghost var all := ReadArgs(mem, arg.typ, start, end, arg.end);
      args := [];
      ReadArgsStep(mem, arg.typ, start, end, arg.end);
      ghost var typ, at := arg.typ, start;
      AheadOfAll([], all);
      var ok := true;
      while ok && !ArgIsEnd(arg)
        invariant Valid() && Terminated(mem, arg.typ) && typ == arg.typ
        invariant all == Ahead(args, ReadArgs(mem, typ, at, end, arg.end))
        invariant match GetArg(mem, mem[typ], at, end)
                  case Some(g) => ok && arg.value == g.value && ptr == g.ptr
                  case None => !ok && ptr == FailedAt(mem[typ], at, end)
        decreases |mem| - arg.typ
      {
        ReadArgsStep(mem, typ, at, end, arg.end);
        AheadOfOne(args, arg.value, ReadArgs(mem, typ + 1, ptr, end, arg.end));
        args := args + [arg.value];
        arg.typ := arg.typ + 1;
        typ, at := arg.typ, ptr;
        ok := ArgRaw(arg);
      }
      ReadArgsStep(mem, typ, at, end, arg.end);
      AheadOfAll(args, all);
    }

    /** lv2_osc_reader_arg_begin: false where the code answers NULL. */
    method ArgBegin(arg: ArgRecord, len: nat) returns (ok: bool)
      requires Valid()
      modifies this, arg
      ensures Valid()
      ensures match Begin(mem, old(ptr), end, len)
              case Some(b) => ok && arg.path == b.path && arg.typ == b.typ < |mem| && arg.end == old(ptr) + len
                              && GetArg(mem, mem[b.typ], b.args, end) == Some(Got(arg.value, ptr))
              case None => !ok
    {
      hide GetText, GetArg, SizeField;
      if Overflow(len) {
        return false;
      }
      arg.end := ptr + len;
      var path := GetString();
      if path == None {
        return false;
      }
      arg.path := path.value;
      arg.typ := ptr;
      ghost var at := ptr;
      var fmt := GetString();
      if fmt == None {
        return false;
      }
      TextIsTerminated(mem, at, end);
      if mem[arg.typ] != COMMA {
        return false;
      }
      arg.typ := arg.typ + 1;
      ok := ArgRaw(arg);
    }

    /** A whole message of len bytes: OSC_READER_MESSAGE_FOREACH. */
    method ReadMessageAt(len: nat) returns (message: Option<Message>)
      requires Valid()
      modifies this
      ensures Valid()
      ensures match ReadMessage(mem, old(ptr), end, len)
              case Some(g) => message == Some(g.value) && ptr == g.ptr
              case None => message == None
    {
      hide GetArg, ReadArgs, Begin;
      var arg := new ArgRecord();
      ghost var begun := Begin(mem, ptr, end, len);
      var ok := ArgBegin(arg, len);
      if !ok {
        return None;
      }
      var args := Foreach(arg, begun.value.args);
      message := Some(Message(arg.path, args));
    }
  }

  /** The arguments read so far in front of those still to be read. */
  function Ahead(args: seq<Arg>, rest: Got<seq<Arg>>): Got<seq<Arg>> {
    Got(args + rest.value, rest.ptr)
  }

  lemma AheadOfAll(args: seq<Arg>, rest: Got<seq<Arg>>)
    ensures Ahead([], rest) == rest && Ahead(args, Got([], rest.ptr)) == Got(args, rest.ptr)
  {
    assert [] + rest.value == rest.value && args + [] == args;
  }

  lemma AheadOfOne(args: seq<Arg>, arg: Arg, rest: Got<seq<Arg>>)
    ensures Ahead(args, Got([arg] + rest.value, rest.ptr)) == Ahead(args + [arg], rest)
  {
    assert args + ([arg] + rest.value) == args + [arg] + rest.value;
  }

  lemma NotTerminated(mem: seq<byte>, at: nat)
    requires at <= |mem| && NulFree(mem[at..])
    ensures !Terminated(mem, at)
  {
    forall i | at <= i < |mem|
      ensures mem[i] != 0
    {
      assert mem[i] == mem[at..][i - at];
    }
  }

  lemma TextIsTerminated(mem: seq<byte>, at: nat, end: nat)
    requires end <= |mem| && GetText(mem, at, end).Some?
    ensures Terminated(mem, at) && at < |mem| && (mem[at] != 0 ==> Terminated(mem, at + 1))
  {}

  lemma ReadArgsStep(mem: seq<byte>, typ: nat, ptr: nat, end: nat, argEnd: nat)
    requires end <= |mem| && Terminated(mem, typ)
    ensures typ < |mem| && (mem[typ] != 0 ==> Terminated(mem, typ + 1))
    ensures ReadArgs(mem, typ, ptr, end, argEnd) ==
      match GetArg(mem, mem[typ], ptr, end)
      case None => Got([], FailedAt(mem[typ], ptr, end))
      case Some(g) =>
        if mem[typ] == 0 || g.ptr > argEnd then Got([], g.ptr)
        else
          var rest := ReadArgs(mem, typ + 1, g.ptr, end, argEnd);
          Got([g.value] + rest.value, rest.ptr)
  {}
}
