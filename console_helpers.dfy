/**
  ConsoleHelpers/ConsoleColors.cs: the colour helpers. ConsoleColors captures the console's
  colours when it is created, re-derives the palette entries of the current foreground and
  background from an RGB triple or from a text checksum, swaps foreground and background,
  and restores what it captured when disposed. ConsoleNoColors does nothing.

  The console itself (the process-wide Console colours and the screen buffer's colour table
  that the Win32 calls read and write) is the class Console below.
*/
module ConsoleHelpers {
  import opened Wrappers

  /** System.ConsoleColor, in declaration (and numeric) order. */
  datatype ConsoleColor =
    | Black | DarkBlue | DarkGreen | DarkCyan | DarkRed | DarkMagenta | DarkYellow | Gray
    | DarkGray | Blue | Green | Cyan | Red | Magenta | Yellow | White

  /** Enum.GetValues(typeof(ConsoleColor)). */
  const EnumValues: seq<ConsoleColor> :=
    [Black, DarkBlue, DarkGreen, DarkCyan, DarkRed, DarkMagenta, DarkYellow, Gray,
     DarkGray, Blue, Green, Cyan, Red, Magenta, Yellow, White]

  const PaletteSize: nat := 16

  datatype Rgb = Rgb(r: int, g: int, b: int)

  /** Array.FindIndex: the first position holding x, or -1. */
  function FindIndex<T(==)>(xs: seq<T>, x: T): (i: int)
    ensures -1 <= i < |xs|
    ensures i == -1 <==> x !in xs
    ensures 0 <= i ==> xs[i] == x && x !in xs[..i]
  {
    if xs == [] then -1
    else if xs[0] == x then 0
    else
      var j := FindIndex(xs[1..], x);
      if j == -1 then -1 else j + 1
  }

  /** Every colour occurs in the enumeration's value list. */
  lemma EveryColorIsEnumerated(c: ConsoleColor)
    ensures c in EnumValues
  {
    match c
    case Black => assert EnumValues[0] == c;
    case DarkBlue => assert EnumValues[1] == c;
    case DarkGreen => assert EnumValues[2] == c;
    case DarkCyan => assert EnumValues[3] == c;
    case DarkRed => assert EnumValues[4] == c;
    case DarkMagenta => assert EnumValues[5] == c;
    case DarkYellow => assert EnumValues[6] == c;
    case Gray => assert EnumValues[7] == c;
    case DarkGray => assert EnumValues[8] == c;
    case Blue => assert EnumValues[9] == c;
    case Green => assert EnumValues[10] == c;
    case Cyan => assert EnumValues[11] == c;
    case Red => assert EnumValues[12] == c;
    case Magenta => assert EnumValues[13] == c;
    case Yellow => assert EnumValues[14] == c;
    case White => assert EnumValues[15] == c;
  }

  /** GetColorIndex: the position of a colour in the enumeration's value list. */
  function GetColorIndex(c: ConsoleColor): (i: int)
    ensures 0 <= i < PaletteSize && EnumValues[i] == c && c !in EnumValues[..i]
  {
    EveryColorIsEnumerated(c);
    FindIndex(EnumValues, c)
  }

  // ---------------------------------------------------------------------------
  // Colour arithmetic

  /** Color.FromArgb accepts only components in 0..255. */
  predicate IsComponent(x: int) { 0 <= x <= 255 }

  /** C# integer division, which truncates toward zero. */
  function DivTrunc(a: int, d: int): int
    requires d > 0
  {
    if a >= 0 then a / d else -((-a) / d)
  }

  /** The grey level of the text drawn on background (r, g, b): black on a light background
      (integer mean of the components at least 128), white otherwise. */
  function ContrastLevel(r: int, g: int, b: int): (f: int)
    ensures f == 0 || f == 255
    ensures f == 0 <==> r + g + b >= 384
    ensures IsComponent(f)
  {
    if DivTrunc(r + g + b, 3) >= 128 then 0 else 255
  }

  /** The UTF-16 code units of one character (a surrogate pair above U+FFFF). */
  function CodeUnits(c: char): (units: seq<int>)
    ensures 1 <= |units| <= 2
    ensures |units| == 2 <==> c as int >= 0x1_0000
    ensures forall i :: 0 <= i < |units| ==> 0 <= units[i] < 0x1_0000
    ensures c as int < 0x1_0000 ==> units == [c as int]
    ensures |units| == 2 ==>
      && 0xD800 <= units[0] < 0xDC00 <= units[1] < 0xE000
      && 0x1_0000 + (units[0] - 0xD800) * 0x400 + (units[1] - 0xDC00) == c as int
  {
    var v := c as int;
    if v < 0x1_0000 then [v]
    else [0xD800 + (v - 0x1_0000) / 0x400, 0xDC00 + (v - 0x1_0000) % 0x400]
  }

  /** The UTF-16 code units of a string (a .NET string's own representation). */
  function Utf16(text: string): (units: seq<int>)
    ensures |units| >= |text|
    ensures forall i :: 0 <= i < |units| ==> 0 <= units[i] < 0x1_0000
    ensures (forall i :: 0 <= i < |text| ==> text[i] as int < 0x1_0000) ==>
      |units| == |text| && forall i :: 0 <= i < |text| ==> units[i] == text[i] as int
  {
    if text == [] then [] else CodeUnits(text[0]) + Utf16(text[1..])
  }

  /** Encoding a concatenation encodes each part, in order: the units of a string are the
      units of its characters one after another. */
  lemma {:induction false} Utf16Append(a: string, b: string)
    ensures Utf16(a + b) == Utf16(a) + Utf16(b)
    decreases |a|
  {
    if a == [] {
      assert a + b == b;
    } else {
      assert (a + b)[1..] == a[1..] + b;
      Utf16Append(a[1..], b);
    }
  }

  /** Encoding.Unicode.GetBytes: each code unit as two bytes, low byte first. */
  function Utf16LeBytes(units: seq<int>): (bytes: seq<int>)
    requires forall i :: 0 <= i < |units| ==> 0 <= units[i] < 0x1_0000
    ensures |bytes| == 2 * |units|
    ensures forall i :: 0 <= i < |bytes| ==> IsComponent(bytes[i])
    ensures forall i :: 0 <= i < |units| ==> bytes[2 * i] == units[i] % 256 && bytes[2 * i + 1] == units[i] / 256
  {
    if units == [] then []
    else
      var rest := Utf16LeBytes(units[1..]);
      assert forall i :: 1 <= i < |units| ==> units[i] == units[1..][i - 1];
      [units[0] % 256, units[0] / 256] + rest
  }

  /** The LINQ pipeline Select((c, i) => (i % 3, c)).GroupBy(i % 3).Select(Sum): one sum per
      group, groups in order of first appearance, folding the bytes in one at a time. */
  function GroupSums(bytes: seq<int>): (sums: seq<int>)
    ensures |sums| == Min(|bytes|, 3)
  {
    if bytes == [] then []
    else
      var sums := GroupSums(bytes[..|bytes| - 1]);
      var k := (|bytes| - 1) % 3;
      var x := bytes[|bytes| - 1];
      if k < |sums| then sums[k := sums[k] + x] else sums + [x]
  }

  /** The reference definition: the sum of the bytes at positions k, k + 3, k + 6, ... */
  function StrideSum(bytes: seq<int>, k: nat): int
    decreases |bytes| - k
  {
    if k >= |bytes| then 0 else bytes[k] + StrideSum(bytes, k + 3)
  }

  lemma {:induction false} StrideSumSnoc(bytes: seq<int>, x: int, k: nat)
    ensures StrideSum(bytes + [x], k)
         == StrideSum(bytes, k) + (if k <= |bytes| && (|bytes| - k) % 3 == 0 then x else 0)
    decreases |bytes| - k
  {
    if k < |bytes| {
      StrideSumSnoc(bytes, x, k + 3);
    }
  }

  /** Group k of the LINQ pipeline holds the sum of the bytes whose index is k modulo 3. */
  lemma {:induction false} GroupSumsAreStrideSums(bytes: seq<int>)
    ensures forall k :: 0 <= k < |GroupSums(bytes)| ==> GroupSums(bytes)[k] == StrideSum(bytes, k)
  {
    if bytes != [] {
      var front := bytes[..|bytes| - 1];
      var x := bytes[|bytes| - 1];
      assert front + [x] == bytes;
      GroupSumsAreStrideSums(front);
      forall k | 0 <= k < |GroupSums(bytes)|
        ensures GroupSums(bytes)[k] == StrideSum(bytes, k)
      {
        StrideSumSnoc(front, x, k);
      }
    }
  }

  /** The colour InferColorFromText derives from text, or None where the source indexes past
      the end of the group array (fewer than three bytes, i.e. fewer than two code units). */
  function InferredColor(text: string): (c: Option<Rgb>)
    ensures c.None? <==> |Utf16(text)| < 2
    ensures c.Some? ==> IsComponent(c.value.r) && IsComponent(c.value.g) && IsComponent(c.value.b)
    ensures c.Some? ==>
      var bytes := Utf16LeBytes(Utf16(text));
      c.value == Rgb(StrideSum(bytes, 0) % 256, StrideSum(bytes, 1) % 256, StrideSum(bytes, 2) % 256)
  {
    var bytes := Utf16LeBytes(Utf16(text));
    var sums := GroupSums(bytes);
    if |sums| < 3 then None
    else
      GroupSumsAreStrideSums(bytes);
      Some(Rgb(sums[0] % 256, sums[1] % 256 % 256, sums[2] % 256 % 256))
  }

  // ---------------------------------------------------------------------------
  // Console state

  /** The process console: its current colours, the colour table of its screen buffer, the
      colours Console.ResetColor goes back to, and its title. */
  class Console {
    var foreground: ConsoleColor
    var background: ConsoleColor
    var palette: seq<Rgb>
    var title: string
    const defaultForeground: ConsoleColor
    const defaultBackground: ConsoleColor

    ghost predicate Valid()
      reads this
    {
      |palette| == PaletteSize
    }

    constructor (foreground: ConsoleColor, background: ConsoleColor, palette: seq<Rgb>, title: string)
      requires |palette| == PaletteSize
      ensures Valid()
      ensures this.foreground == foreground && this.background == background
      ensures this.palette == palette && this.title == title
      ensures defaultForeground == foreground && defaultBackground == background
    {
      this.foreground, this.background := foreground, background;
      this.palette, this.title := palette, title;
      defaultForeground, defaultBackground := foreground, background;
    }

    /** Console.ResetColor. */
    method ResetColor()
      modifies this
      ensures foreground == defaultForeground && background == defaultBackground
      ensures palette == old(palette) && title == old(title)
    {
      foreground, background := defaultForeground, defaultBackground;
    }
  }

  /** The colour helper that does act on the console. */
  class ConsoleColors {
    const console: Console
    const savedForeground: ConsoleColor
    const savedBackground: ConsoleColor
    const savedPalette: seq<Rgb>

    ghost predicate Valid()
      reads this, console
    {
      console.Valid() && |savedPalette| == PaletteSize
    }

    /** Captures the current colours and screen buffer information. */
    constructor (console: Console)
      requires console.Valid()
      ensures Valid() && this.console == console
      ensures savedForeground == console.foreground && savedBackground == console.background
      ensures savedPalette == console.palette
    {
      this.console := console;
      savedForeground, savedBackground := console.foreground, console.background;
      savedPalette := console.palette;
    }

    /** Exchanges foreground and background. */
    method Swap() returns (self: ConsoleColors)
      modifies console
      ensures self == this
      ensures console.foreground == old(console.background)
      ensures console.background == old(console.foreground)
      ensures console.palette == old(console.palette) && console.title == old(console.title)
    {
      var foreground := console.foreground;
      console.foreground := console.background;
      console.background := foreground;
      self := this;
    }

    /** Puts back the captured colours and colour table; the trailing Console.ResetColor then
        leaves the console's default colours in place. */
    method Dispose()
      requires Valid()
      modifies console
      ensures Valid()
      ensures console.palette == savedPalette && console.title == old(console.title)
      ensures console.foreground == console.defaultForeground
      ensures console.background == console.defaultBackground
    {
      console.foreground := savedForeground;
      console.background := savedBackground;
      console.palette := savedPalette;
      console.ResetColor();
      var self := Swap();
      self := self.Swap();
    }

    /** Sets the palette entry of the current background to (r, g, b) and that of the current
        foreground to the contrasting grey. None stands for the exception Color.FromArgb throws
        on a component outside 0..255, raised before the console is touched. */
    method SetColorRgb(r: int, g: int, b: int) returns (result: Option<ConsoleColors>)
      requires Valid()
      modifies console
      ensures Valid()
      ensures result.Some? <==> IsComponent(r) && IsComponent(g) && IsComponent(b)
      ensures result.None? ==> unchanged(console)
      ensures result.Some? ==>
        && result.value == this
        && console.palette == old(console.palette)
             [GetColorIndex(old(console.background)) := Rgb(r, g, b)]
             [GetColorIndex(old(console.foreground)) := var f := ContrastLevel(r, g, b); Rgb(f, f, f)]
        && console.foreground == console.defaultForeground
        && console.background == console.defaultBackground
        && console.title == old(console.title)
    {
      var table := console.palette;
      var fgIndex := GetColorIndex(console.foreground);
      var bgIndex := GetColorIndex(console.background);
      if !(IsComponent(r) && IsComponent(g) && IsComponent(b)) {
        return None;
      }
      table := table[bgIndex := Rgb(r, g, b)];
      var f := ContrastLevel(r, g, b);
      table := table[fgIndex := Rgb(f, f, f)];
      console.palette := table;
      console.ResetColor();
      var self := Swap();
      self := self.Swap();
      result := Some(self);
    }

    /** Colours the console from a checksum of text. None stands for the IndexOutOfRange
        exception on text shorter than two UTF-16 code units. */
    method InferColorFromText(text: string) returns (result: Option<ConsoleColors>)
      requires Valid()
      modifies console
      ensures Valid()
      ensures result.Some? <==> InferredColor(text).Some?
      ensures result.None? ==> unchanged(console)
      ensures result.Some? ==>
        && result.value == this
        && (var c := InferredColor(text).value;
            console.palette == old(console.palette)
              [GetColorIndex(old(console.background)) := c]
              [GetColorIndex(old(console.foreground)) := var f := ContrastLevel(c.r, c.g, c.b); Rgb(f, f, f)])
        && console.foreground == console.defaultForeground
        && console.background == console.defaultBackground
        && console.title == old(console.title)
    {
      var c := InferredColor(text);
      if c.None? {
        return None;
      }
      result := SetColorRgb(c.value.r, c.value.g, c.value.b);
    }

    /** ConsoleFunctions.SetConsoleTitle. */
    method SetConsoleTitle(text: string) returns (self: ConsoleColors)
      modifies console
      ensures self == this && console.title == text
      ensures console.foreground == old(console.foreground) && console.background == old(console.background)
      ensures console.palette == old(console.palette)
    {
      console.title := text;
      self := this;
    }
  }

  /** The helper chosen with --nocolors or when no console is attached: every operation
      returns the helper itself and touches nothing. */
  class ConsoleNoColors {
    constructor () { }

    method Swap() returns (self: ConsoleNoColors)
      ensures self == this
    {
      self := this;
    }

    method Dispose()
    {
    }

    method InferColorFromText(text: string) returns (self: ConsoleNoColors)
      ensures self == this
    {
      self := this;
    }

    method SetConsoleTitle(text: string) returns (self: ConsoleNoColors)
      ensures self == this
    {
      self := this;
    }

    method SetColorRgb(r: int, g: int, b: int) returns (self: ConsoleNoColors)
      ensures self == this
    {
      self := this;
    }
  }

  /** Swapping twice leaves the console's colours as they were. */
  method SwapTwice(colors: ConsoleColors)
    modifies colors.console
    ensures colors.console.foreground == old(colors.console.foreground)
    ensures colors.console.background == old(colors.console.background)
    ensures colors.console.palette == old(colors.console.palette) && colors.console.title == old(colors.console.title)
  {
    var self := colors.Swap();
    self := self.Swap();
  }

  /** The highlighting the tail tool wraps around its notices: a helper created while the
      console shows its default colours, swapped, then disposed, leaves the console with the
      colours it had before. */
  method HighlightThenRestore(console: Console) returns (colors: ConsoleColors)
    requires console.Valid()
    requires console.foreground == console.defaultForeground
    requires console.background == console.defaultBackground
    modifies console
    ensures fresh(colors) && colors.console == console
    ensures console.foreground == old(console.foreground) == colors.savedForeground
    ensures console.background == old(console.background) == colors.savedBackground
    ensures console.palette == old(console.palette) && console.title == old(console.title)
  {
    colors := new ConsoleColors(console);
    var _ := colors.Swap();
    colors.Dispose();
  }
}
