// monobus.c and monobusd.c: the compositor over whole runs of commands.

module Canvas {
  import opened Bits
  import opened Bytes
  import opened Compositor

  // ----- Specification: what a run of commands shows -----

  ghost predicate AllProper(cmds: seq<Command>) {
    forall i :: 0 <= i < |cmds| ==> Proper(cmds[i])
  }

  const BLANK := Pixel(0, 0)

  /** A pixel after a run of commands on the zero state. */
  ghost function PixelAfter(cmds: seq<Command>, row: int, col: int): (p: Pixel)
    requires AllProper(cmds)
    ensures p.Valid()
  {
    if cmds == [] then BLANK
    else Paint(cmds[|cmds| - 1], PixelAfter(cmds[..|cmds| - 1], row, col), row, col)
  }

  /**
   * What the latest command of one priority that covers the pixel set it to; None if it
   * cleared, or if there is none.
   */
  ghost function Latest(cmds: seq<Command>, prio: nat, row: int, col: int): Option<bool>
    requires AllProper(cmds)
  {
    if cmds == [] then None
    else
      var cmd := cmds[|cmds| - 1];
      if cmd.prio == prio && Covers(cmd, row, col) then
        if cmd.Set? then Some(ShowsSet(cmd, row, col)) else None
      else Latest(cmds[..|cmds| - 1], prio, row, col)
  }

  /** The highest priority below n with a latest set decides; without one the pixel is off. */
  ghost predicate Shown(cmds: seq<Command>, n: nat, row: int, col: int)
    requires AllProper(cmds)
  {
    n > 0 &&
    match Latest(cmds, n - 1, row, col)
    case Some(on) => on
    case None => Shown(cmds, n - 1, row, col)
  }

  // ----- The state keeps that, whatever stale bits clears leave behind -----

  lemma {:induction false} LayersAreLatest(cmds: seq<Command>, row: int, col: int, k: nat)
    requires AllProper(cmds) && k < LAYERS
    ensures var p, latest := PixelAfter(cmds, row, col), Latest(cmds, k, row, col);
      Bit(p.mask, k) == latest.Some? && (latest.Some? ==> Bit(p.bits, k) == latest.value)
  {
    hide Paint, ShowsSet;
    if cmds == [] {
      BitOfZero(k);
    } else {
      var init := cmds[..|cmds| - 1];
      LayersAreLatest(init, row, col, k);
      PaintBits(cmds[|cmds| - 1], PixelAfter(init, row, col), row, col, k);
    }
  }

  /** What _get_bit in monobusd.c looks for: the highest layer below n that is in the mask. */
  predicate Resolve(p: Pixel, n: nat) {
    n > 0 && if Bit(p.mask, n - 1) then Bit(p.bits, n - 1) else Resolve(p, n - 1)
  }

  lemma {:induction false} ResolveIsShown(cmds: seq<Command>, n: nat, row: int, col: int)
    requires AllProper(cmds) && n <= LAYERS
    ensures Resolve(PixelAfter(cmds, row, col), n) == Shown(cmds, n, row, col)
  {
    if n > 0 {
      LayersAreLatest(cmds, row, col, n - 1);
      ResolveIsShown(cmds, n - 1, row, col);
    }
  }

  /** The displayed colour is that of the highest priority whose latest command at the pixel was a set, else off. */
  lemma {:induction false} HighestSetWins(cmds: seq<Command>, n: nat, row: int, col: int, top: nat)
    requires AllProper(cmds) && top < n
    requires Latest(cmds, top, row, col).Some?
    requires forall k: nat :: top < k < n ==> Latest(cmds, k, row, col).None?
    ensures Shown(cmds, n, row, col) == Latest(cmds, top, row, col).value
  {
    if top < n - 1 {
      HighestSetWins(cmds, n - 1, row, col, top);
    }
  }

  lemma {:induction false} OffWithoutSets(cmds: seq<Command>, n: nat, row: int, col: int)
    requires AllProper(cmds) && forall k: nat :: k < n ==> Latest(cmds, k, row, col).None?
    ensures !Shown(cmds, n, row, col)
  {
    if n > 0 {
      OffWithoutSets(cmds, n - 1, row, col);
    }
  }

  // ----- The same in terms of the commands alone -----

  /** The pixel is between the edges of the command's rectangle. */
  predicate Touches(cmd: Command, row: int, col: int) {
    cmd.offy <= row < cmd.offy + cmd.height && cmd.offx <= col < cmd.offx + cmd.width
  }

  lemma TouchesIsCovers(cmd: Command, row: int, col: int)
    ensures Touches(cmd, row, col) == Covers(cmd, row, col)
  {}

  /** The last command of its priority that touches the pixel. */
  ghost predicate LastOfItsPriority(cmds: seq<Command>, i: nat, row: int, col: int)
    requires i < |cmds|
  {
    && Touches(cmds[i], row, col)
    && forall j :: i < j < |cmds| && cmds[j].prio == cmds[i].prio ==> !Touches(cmds[j], row, col)
  }

  /** Every set of the priority at the pixel was cleared later. */
  ghost predicate Cleared(cmds: seq<Command>, prio: nat, row: int, col: int) {
    forall j :: 0 <= j < |cmds| && cmds[j].Set? && cmds[j].prio == prio && Touches(cmds[j], row, col) ==>
      exists k :: j < k < |cmds| && cmds[k].Clear? && cmds[k].prio == prio && Touches(cmds[k], row, col)
  }

  lemma {:induction false} LatestIsLast(cmds: seq<Command>, i: nat, row: int, col: int)
    requires AllProper(cmds) && i < |cmds| && cmds[i].Set? && LastOfItsPriority(cmds, i, row, col)
    ensures Covers(cmds[i], row, col)
    ensures Latest(cmds, cmds[i].prio, row, col) == Some(ShowsSet(cmds[i], row, col))
  {
    hide Proper, ShowsSet, Covers, Touches;
    TouchesIsCovers(cmds[i], row, col);
    var last := |cmds| - 1;
    if i < last {
      TouchesIsCovers(cmds[last], row, col);
      LatestIsLast(cmds[..last], i, row, col);
    }
  }

  lemma {:induction false} ClearedIsNone(cmds: seq<Command>, prio: nat, row: int, col: int)
    requires AllProper(cmds) && Cleared(cmds, prio, row, col)
    ensures Latest(cmds, prio, row, col) == None
  {
    hide Proper, ShowsSet, Covers, Touches;
    if cmds != [] {
      var last := |cmds| - 1;
      TouchesIsCovers(cmds[last], row, col);
      if cmds[last].prio != prio || !Touches(cmds[last], row, col) {
        ClearedIsNone(cmds[..last], prio, row, col);
      }
    }
  }

  /**
   * What is displayed after any commands: the bit of the blob of a set, if no later command
   * of its priority touches the pixel and all higher priorities are clear there.
   */
  lemma DisplayedPixel(cmds: seq<Command>, i: nat, row: int, col: int) returns (at: nat, n: nat)
    requires AllProper(cmds) && i < |cmds| && 0 <= row < 16 && 0 <= col < 112
    requires cmds[i].Set? && LastOfItsPriority(cmds, i, row, col)
    requires forall prio: nat :: cmds[i].prio < prio < 32 ==> Cleared(cmds, prio, row, col)
    ensures var cmd := cmds[i];
      && n == 8 * ((cmd.width + 7) / 8) - cmd.width + (col - cmd.offx)
      && at == ((row - cmd.offy) * ((cmd.width + 7) / 8) + n / 8) % 0x1_0000_0000 < |cmd.blob|
      && Shown(cmds, 32, row, col) == Bit(cmd.blob[at], 7 - n % 8)
  {
    hide ShowsSet, Latest, Shown, Cleared, Bit;
    assert Proper(cmds[i]);
    at, n := SetShowsBlob(cmds[i], row, col);
    LatestIsLast(cmds, i, row, col);
    forall prio: nat | cmds[i].prio < prio < LAYERS
      ensures Latest(cmds, prio, row, col).None?
    {
      ClearedIsNone(cmds, prio, row, col);
    }
    HighestSetWins(cmds, LAYERS, row, col, cmds[i].prio);
  }

  /** And nothing is displayed where every set was cleared by its own priority. */
  lemma DarkPixel(cmds: seq<Command>, row: int, col: int)
    requires AllProper(cmds) && forall prio: nat :: prio < 32 ==> Cleared(cmds, prio, row, col)
    ensures !Shown(cmds, 32, row, col)
  {
    hide Latest, Shown, Cleared;
    forall prio: nat | prio < LAYERS
      ensures Latest(cmds, prio, row, col).None?
    {
      ClearedIsNone(cmds, prio, row, col);
    }
    OffWithoutSets(cmds, LAYERS, row, col);
  }

  /** The commands of one priority. */
  ghost function OfPriority(cmds: seq<Command>, prio: nat): (r: seq<Command>)
    requires AllProper(cmds)
    ensures AllProper(r)
  {
    if cmds == [] then []
    else
      var cmd, init := cmds[|cmds| - 1], OfPriority(cmds[..|cmds| - 1], prio);
      if cmd.prio == prio then init + [cmd] else init
  }

  lemma {:induction false} LatestOfPriority(cmds: seq<Command>, prio: nat, row: int, col: int)
    requires AllProper(cmds)
    ensures Latest(OfPriority(cmds, prio), prio, row, col) == Latest(cmds, prio, row, col)
  {
    if cmds != [] {
      var cmd, init := cmds[|cmds| - 1], cmds[..|cmds| - 1];
      LatestOfPriority(init, prio, row, col);
      if cmd.prio == prio {
        var r := OfPriority(cmds, prio);
        assert r[..|r| - 1] == OfPriority(init, prio);
      }
    }
  }

  /** Clients of different priorities do not disturb each other: only the order within each priority matters. */
  lemma {:induction false} InterleavingIsIrrelevant(cmds: seq<Command>, cmds': seq<Command>, n: nat, row: int, col: int)
    requires AllProper(cmds) && AllProper(cmds')
    requires forall k: nat :: k < n ==> OfPriority(cmds, k) == OfPriority(cmds', k)
    ensures Shown(cmds, n, row, col) == Shown(cmds', n, row, col)
  {
    if n > 0 {
      LatestOfPriority(cmds, n - 1, row, col);
      LatestOfPriority(cmds', n - 1, row, col);
      InterleavingIsIrrelevant(cmds, cmds', n - 1, row, col);
    }
  }

  // ----- state_t -----

  class Canvas {
    const pixels: array2<Pixel>
    ghost var history: seq<Command>

    ghost predicate Valid()
      reads this, pixels
    {
      && pixels.Length0 == HEIGHT_NET && pixels.Length1 == WIDTH_NET
      && AllProper(history)
      && forall r, c :: 0 <= r < HEIGHT_NET && 0 <= c < WIDTH_NET ==> pixels[r, c] == PixelAfter(history, r, c)
    }

    constructor ()
      ensures Valid() && history == [] && fresh(pixels)
    {
      pixels := new Pixel[HEIGHT_NET, WIDTH_NET]((_, _) => BLANK);
      history := [];
    }

    /**
     * The body shared by _set_pixels and _clr_pixels: every pixel of the rectangle that is
     * on the display is painted, and no other.
     */
    method Draw(cmd: Command)
      requires Valid() && Proper(cmd)
      modifies this, pixels
      ensures Valid() && history == old(history) + [cmd]
    {
      ghost var was := old(history);
      var y0 := if cmd.offy < 0 then -cmd.offy else 0;
      var maxy := Min(cmd.height, HEIGHT_NET - cmd.offy);
      var y := y0;
      while y < maxy
        invariant 0 <= y0 <= y
        invariant y <= maxy || y == y0
        invariant history == was
        invariant forall r, c :: 0 <= r < HEIGHT_NET && 0 <= c < WIDTH_NET ==>
          pixels[r, c] == if r < cmd.offy + y then Paint(cmd, PixelAfter(was, r, c), r, c) else PixelAfter(was, r, c)
        decreases maxy - y
      {
        DrawRow(cmd, cmd.offy + y);
        y := y + 1;
      }
      history := history + [cmd];
      assert history[..|history| - 1] == was;
    }

    /** The inner loop of either. */
    method DrawRow(cmd: Command, row: int)
      requires pixels.Length0 == HEIGHT_NET && pixels.Length1 == WIDTH_NET
      requires Proper(cmd) && 0 <= row < HEIGHT_NET && 0 <= row - cmd.offy < cmd.height
      requires forall c :: 0 <= c < WIDTH_NET ==> pixels[row, c].Valid()
      modifies pixels
      ensures forall c :: 0 <= c < WIDTH_NET ==>
        old(pixels[row, c]).Valid() && pixels[row, c] == Paint(cmd, old(pixels[row, c]), row, c)
      ensures forall r, c :: 0 <= r < HEIGHT_NET && 0 <= c < WIDTH_NET && r != row ==> pixels[r, c] == old(pixels[r, c])
    {
      hide SetPixel, ClearPixel, Pixel.Valid, GetBit, Access;
      var x0 := if cmd.offx < 0 then -cmd.offx else 0;
      var maxx := Min(cmd.width, WIDTH_NET - cmd.offx);
      var x := x0;
      while x < maxx
        invariant 0 <= x0 <= x
        invariant x <= maxx || x == x0
        invariant forall c :: 0 <= c < WIDTH_NET ==>
          old(pixels[row, c]).Valid() &&
          pixels[row, c] == if c < cmd.offx + x then Paint(cmd, old(pixels[row, c]), row, c) else old(pixels[row, c])
        invariant forall r, c :: 0 <= r < HEIGHT_NET && 0 <= c < WIDTH_NET && r != row ==>
          pixels[r, c] == old(pixels[r, c])
        decreases maxx - x
      {
        var col := cmd.offx + x;
        if cmd.Set? {
          assert OnDisplay(row, col) && Covers(cmd, row, col) && InBlob(cmd, row, col);
          var on := GetBit(cmd.blob, row - cmd.offy, x, cmd.width);
          pixels[row, col] := SetPixel(pixels[row, col], cmd.prio, on);
        } else {
          pixels[row, col] := ClearPixel(pixels[row, col], cmd.prio);
        }
        x := x + 1;
      }
    }

    /** _get_bit in monobusd.c */
    method Displayed(y: nat, x: nat) returns (on: bool)
      requires Valid() && y < HEIGHT_NET && x < WIDTH_NET
      ensures on == Shown(history, LAYERS, y, x)
    {
      ResolveIsShown(history, LAYERS, y, x);
      on := ResolvePixel(pixels[y, x]);
    }
  }

  /** Its loop: from the highest layer down, the first one in the mask decides. */
  method ResolvePixel(pixel: Pixel) returns (on: bool)
    ensures on == Resolve(pixel, LAYERS)
  {
    hide And, Bit, Pow2;
    Pow2Of31();
    if pixel.mask != 0 {
      var j, mask: nat := 0, 0x8000_0000;
      while j < 32
        invariant 0 <= j <= 32 && (j < 32 ==> mask == Pow2(31 - j))
        invariant Resolve(pixel, LAYERS) == Resolve(pixel, 32 - j)
      {
        AndPow2(pixel.mask, 31 - j);
        AndPow2(pixel.bits, 31 - j);
        HalfOfPow2(31 - j);
        if And(pixel.mask, mask) != 0 {
          return And(pixel.bits, mask) != 0;
        }
        mask := mask / 2;
        j := j + 1;
      }
    } else {
      ResolveNothing(pixel, LAYERS);
    }
    return false;
  }

  lemma {:induction false} ResolveNothing(p: Pixel, n: nat)
    requires p.mask == 0
    ensures !Resolve(p, n)
  {
    if n > 0 {
      BitOfZero(n - 1);
      ResolveNothing(p, n - 1);
    }
  }

  lemma HalfOfPow2(k: nat)
    ensures k > 0 ==> Pow2(k) / 2 == Pow2(k - 1)
  {}

  /** The macro MAX of monobus.c. */
  function Min(a: int, b: int): int {
    if a > b then b else a
  }
}
