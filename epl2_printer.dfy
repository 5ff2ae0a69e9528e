/**
 * com.anode.print.zebra.EPL2Printer: the EPL2 command text sent to a
 * Zebra label printer.
 *
 * The printer's settings are set once by the constructor. Every text the
 * printer hands to sendCommands is appended to `sent`, which stands for
 * the socket; the connection itself, its failures and the pause in reset
 * are not part of this model. Java's int arithmetic on the running y
 * position wraps around, and so does the model's.
 */
module Zebra {
  import opened JavaLang

  /** The character barcode texts are split on into label lines. */
  const LabelSeparator: char := '\\'

  /** The concatenation of texts, in order. */
  function Concat(ss: seq<string>): string
  {
    if ss == [] then "" else Concat(ss[..|ss| - 1]) + ss[|ss| - 1]
  }

  lemma {:induction false} ConcatAppend(a: seq<string>, b: seq<string>)
    ensures Concat(a + b) == Concat(a) + Concat(b)
    decreases |b|
  {
    if b == [] {
      assert a + b == a;
    } else {
      var n := |b|;
      var c := a + b;
      assert c[..|c| - 1] == a + b[..n - 1];
      assert c[|c| - 1] == b[n - 1];
      ConcatAppend(a, b[..n - 1]);
      calc {
        Concat(c);
        Concat(a + b[..n - 1]) + b[n - 1];
        (Concat(a) + Concat(b[..n - 1])) + b[n - 1];
        Concat(a) + (Concat(b[..n - 1]) + b[n - 1]);
        Concat(a) + Concat(b);
      }
    }
  }

  /** xs repeated n times; nothing when n is not positive. */
  function Repeat<X>(xs: seq<X>, n: int): seq<X>
  {
    if n <= 0 then [] else Repeat(xs, n - 1) + xs
  }

  lemma {:induction false} RepeatLength<X>(xs: seq<X>, n: nat)
    ensures |Repeat(xs, n)| == n * |xs|
  {
    if n > 0 {
      RepeatLength(xs, n - 1);
      assert n * |xs| == (n - 1) * |xs| + |xs|;
    }
  }

  /** The text s written n times; nothing when n is not positive. */
  function RepeatText(s: string, n: int): string
  {
    if n <= 0 then "" else RepeatText(s, n - 1) + s
  }

  /** Writing the concatenation n times is concatenating the list repeated n times. */
  lemma {:induction false} RepeatTextConcat(xs: seq<string>, n: int)
    ensures RepeatText(Concat(xs), n) == Concat(Repeat(xs, n))
    decreases if n <= 0 then 0 else n
  {
    if n > 0 {
      RepeatTextConcat(xs, n - 1);
      ConcatAppend(Repeat(xs, n - 1), xs);
    }
  }

  /**
   * Repeating copy by copy puts the i-th item of the c-th copy at position
   * c * |xs| + i: the whole list, then the whole list again (1,2,3,1,2,3
   * for three barcodes).
   */
  lemma {:induction false} RepeatAt<X>(xs: seq<X>, n: nat, c: nat, i: nat)
    requires c < n && i < |xs|
    ensures c * |xs| + i < |Repeat(xs, n)|
    ensures Repeat(xs, n)[c * |xs| + i] == xs[i]
    decreases n
  {
    var m := |xs|;
    var front := Repeat(xs, n - 1);
    RepeatLength(xs, n - 1);
    RepeatLength(xs, n);
    assert Repeat(xs, n) == front + xs;
    if c < n - 1 {
      RepeatAt(xs, n - 1, c, i);
    } else {
      assert c * m + i == |front| + i;
    }
  }

  /** One text line at (x, y): font 3, no rotation, no magnification, normal print. */
  function LabelLine(x: int, y: int, text: string): string
  {
    "A" + DecimalString(x) + "," + DecimalString(y) + ",0,3,1,1,N,\"" + text + "\"\n"
  }

  /**
   * The lines the loop of addBarCodeCommands writes: one per label, the
   * running y position starting at y and moving by inc per line, with int
   * wrap-around.
   */
  function RunningLines(line: (int, string) -> string, y: int, inc: int, labels: seq<string>): string
    decreases |labels|
  {
    if labels == [] then ""
    else line(y, labels[0]) + RunningLines(line, Wrap32(y + inc), inc, labels[1..])
  }

  /** The same lines in closed form: the k-th one stands at y = yStart + k * inc, wrapped to an int. */
  function PlacedLines(line: (int, string) -> string, yStart: int, inc: int, labels: seq<string>): (r: seq<string>)
    ensures |r| == |labels|
  {
    seq(|labels|, k requires 0 <= k < |labels| => line(Wrap32(yStart + k * inc), labels[k]))
  }

  lemma PlacedLinesAt(line: (int, string) -> string, yStart: int, inc: int, labels: seq<string>, k: nat)
    requires k < |labels|
    ensures PlacedLines(line, yStart, inc, labels)[k] == line(Wrap32(yStart + k * inc), labels[k])
  {
  }

  lemma WrapStep(yStart: int, inc: int, k: int)
    ensures Wrap32(Wrap32(yStart + inc) + k * inc) == Wrap32(yStart + (k + 1) * inc)
  {
    WrapAdd(yStart + inc, k * inc);
    assert (k + 1) * inc == k * inc + inc;
  }

  /** The closed form, first line apart: the rest starts one increment further down. */
  lemma PlacedLinesTail(line: (int, string) -> string, yStart: int, inc: int, labels: seq<string>)
    requires IsInt32(yStart) && labels != []
    ensures PlacedLines(line, yStart, inc, labels)
            == [line(yStart, labels[0])] + PlacedLines(line, Wrap32(yStart + inc), inc, labels[1..])
  {
    var tail := PlacedLines(line, Wrap32(yStart + inc), inc, labels[1..]);
    var all := PlacedLines(line, yStart, inc, labels);
    forall k | 0 <= k < |tail|
      ensures tail[k] == all[k + 1]
    {
      WrapStep(yStart, inc, k);
    }
    assert all[0] == line(yStart, labels[0]);
  }

  /** The running y position of the loop reaches the closed form. */
  lemma {:induction false} RunningLinesPlaced(line: (int, string) -> string, yStart: int, inc: int, labels: seq<string>)
    requires IsInt32(yStart)
    ensures RunningLines(line, yStart, inc, labels) == Concat(PlacedLines(line, yStart, inc, labels))
    decreases |labels|
  {
    if labels != [] {
      var y1 := Wrap32(yStart + inc);
      var first := line(yStart, labels[0]);
      var tail := PlacedLines(line, y1, inc, labels[1..]);
      RunningLinesPlaced(line, y1, inc, labels[1..]);
      PlacedLinesTail(line, yStart, inc, labels);
      ConcatAppend([first], tail);
      assert Concat([first]) == first by {
        assert [first][..0] == [];
      }
    }
  }

  /**
   * How a printer lays out the label lines of a barcode: the line format
   * (the text of one line at a given y position) and the y position of the
   * first line and its increment.
   */
  datatype Layout = Layout(line: (int, string) -> string, yStart: Int32, yIncrement: Int32)

  /** The label lines of one barcode: one per piece of the barcode split on '\'. */
  function LabelLines(layout: Layout, barCode: string): string
  {
    RunningLines(layout.line, layout.yStart as int, layout.yIncrement as int, Split(barCode, LabelSeparator))
  }

  lemma RunningStep(line: (int, string) -> string, y: int, inc: int, labels: seq<string>, i: nat)
    requires i < |labels|
    ensures RunningLines(line, y, inc, labels[i..]) == line(y, labels[i]) + RunningLines(line, Wrap32(y + inc), inc, labels[i + 1..])
  {
    assert labels[i..][1..] == labels[i + 1..];
  }

  /** The loop of addBarCodeCommands: appends the label lines of barCode to the buffer. */
  method AppendLabelLines(layout: Layout, barCode: string, commandsBuffer: string) returns (r: string)
    ensures r == commandsBuffer + LabelLines(layout, barCode)
  {
    var yPosition: Int32 := layout.yStart;
    var labels := Split(barCode, LabelSeparator);
    r := commandsBuffer;
    for i := 0 to |labels|
      invariant r + RunningLines(layout.line, yPosition as int, layout.yIncrement as int, labels[i..])
                == commandsBuffer + LabelLines(layout, barCode)
    {
      RunningStep(layout.line, yPosition as int, layout.yIncrement as int, labels, i);
      r := r + layout.line(yPosition as int, labels[i]);
      yPosition := Wrap32(yPosition as int + layout.yIncrement as int) as Int32;
    }
  }

  /** One label: "N" clears the image buffer, then the lines, then the print command tail. */
  function Block(layout: Layout, barCode: string, tail: string): string
  {
    "N\n" + LabelLines(layout, barCode) + tail
  }

  /** One label per barcode, in list order, each ending with tail. */
  function Blocks(layout: Layout, barCodeList: seq<string>, tail: string): (r: seq<string>)
    ensures |r| == |barCodeList|
  {
    seq(|barCodeList|, i requires 0 <= i < |barCodeList| => Block(layout, barCodeList[i], tail))
  }

  /** The loop over the barcodes: one label per barcode, in list order, each ending with tail. */
  method AppendBlocks(layout: Layout, barCodeList: seq<string>, tail: string, commands: string) returns (r: string)
    ensures r == commands + Concat(Blocks(layout, barCodeList, tail))
  {
    var blocks := Blocks(layout, barCodeList, tail);
    r := commands;
    for i := 0 to |barCodeList|
      invariant r == commands + Concat(blocks[..i])
    {
      assert blocks[..i + 1][..i] == blocks[..i];
      r := r + "N\n";
      r := AppendLabelLines(layout, barCodeList[i], r);
      r := r + tail;
    }
    assert blocks[..|barCodeList|] == blocks;
  }

  /** The copy loop of block mode: the whole list once per copy, each label ending with tail. */
  method RepeatBlocks(layout: Layout, barCodeList: seq<string>, copies: Int32, tail: string) returns (commands: string)
    ensures commands == RepeatText(Concat(Blocks(layout, barCodeList, tail)), copies as int)
  {
    ghost var text := Concat(Blocks(layout, barCodeList, tail));
    var n := copies as int;
    commands := "";
    var copy := 0;
    while copy < n
      invariant 0 <= copy && (copy <= n || copy == 0)
      invariant commands == RepeatText(text, copy)
    {
      commands := AppendBlocks(layout, barCodeList, tail, commands);
      assert RepeatText(text, copy + 1) == RepeatText(text, copy) + text;
      copy := copy + 1;
    }
    assert n < 0 ==> commands == "" && RepeatText(text, n) == "";
  }

  class Printer {
    // AbstractPrinter
    const name: string
    const location: string
    const ipAddress: string
    const port: Int32
    // EPL2Printer
    const defaultSpeed: Int32
    const defaultDensity: Int32
    const dotWidth: Int32
    const xStartPosition: Int32
    const yStartPosition: Int32
    const yIncrement: Int32
    /** The texts passed to sendCommands, oldest first. */
    var sent: seq<string>

    constructor (name: string, location: string, ipAddress: string, port: Int32,
                 defaultSpeed: Int32, defaultDensity: Int32, dotWidth: Int32,
                 xStartPosition: Int32, yStartPosition: Int32, yIncrement: Int32)
      ensures this.name == name && this.location == location
      ensures this.ipAddress == ipAddress && this.port == port
      ensures this.defaultSpeed == defaultSpeed && this.defaultDensity == defaultDensity
      ensures this.dotWidth == dotWidth && this.xStartPosition == xStartPosition
      ensures this.yStartPosition == yStartPosition && this.yIncrement == yIncrement
      ensures sent == []
    {
      this.name := name;
      this.location := location;
      this.ipAddress := ipAddress;
      this.port := port;
      this.defaultSpeed := defaultSpeed;
      this.defaultDensity := defaultDensity;
      this.dotWidth := dotWidth;
      this.xStartPosition := xStartPosition;
      this.yStartPosition := yStartPosition;
      this.yIncrement := yIncrement;
      sent := [];
    }

    /** The label line format of this printer: x is always xStartPosition. */
    function Line(): (int, string) -> string
    {
      (y, text) => LabelLine(xStartPosition as int, y, text)
    }

    function LabelLayout(): Layout
    {
      Layout(Line(), yStartPosition, yIncrement)
    }

    function BarCodeLines(barCode: string): string
    {
      LabelLines(LabelLayout(), barCode)
    }

    /**
     * The label lines, in order: the k-th one holds the k-th piece of the
     * barcode and stands at x = xStartPosition, y = yStartPosition + k *
     * yIncrement (wrapped to an int, which is the exact sum when that fits).
     */
    lemma BarCodeLinesAt(barCode: string)
      ensures BarCodeLines(barCode) == Concat(PlacedLines(Line(), yStartPosition as int, yIncrement as int, Split(barCode, LabelSeparator)))
    {
      RunningLinesPlaced(Line(), yStartPosition as int, yIncrement as int, Split(barCode, LabelSeparator));
    }

    /** The k-th placed line is the k-th label at (xStartPosition, yStartPosition + k * yIncrement), wrapped. */
    lemma PlacedLineAt(labels: seq<string>, k: nat)
      requires k < |labels|
      ensures PlacedLines(Line(), yStartPosition as int, yIncrement as int, labels)[k]
              == LabelLine(xStartPosition as int, Wrap32(yStartPosition as int + k * yIncrement as int), labels[k])
    {
      var line := Line();
      var y := Wrap32(yStartPosition as int + k * yIncrement as int);
      assert line(y, labels[k]) == LabelLine(xStartPosition as int, y, labels[k]);
      PlacedLinesAt(line, yStartPosition as int, yIncrement as int, labels, k);
    }

    /** addBarCodeCommands: appends the label lines of barCode to the buffer. */
    method AddBarCodeCommands(barCode: string, commandsBuffer: string) returns (r: string)
      ensures r == commandsBuffer + BarCodeLines(barCode)
    {
      r := AppendLabelLines(LabelLayout(), barCode, commandsBuffer);
    }

    /** "P{copies}\n": print the label copies times. */
    static function CopiesTail(copies: Int32): string
    {
      "P" + DecimalString(copies as int) + "\n"
    }

    /**
     * What printBarCode sends. With blockCopies, the whole list once per
     * copy, each label printed once; otherwise each barcode once, printed
     * copies times.
     */
    function PrintCommands(barCodeList: seq<string>, copies: Int32, blockCopies: bool): string
    {
      if blockCopies then RepeatText(Concat(Blocks(LabelLayout(), barCodeList, "P1\n")), copies as int)
      else Concat(Blocks(LabelLayout(), barCodeList, CopiesTail(copies)))
    }

    /** sendCommands, as far as it is modelled: the text goes out. */
    method SendCommands(commands: string)
      modifies this`sent
      ensures sent == old(sent) + [commands]
    {
      sent := sent + [commands];
    }

    /** printBarCode: builds the whole text first and sends it once. */
    method PrintBarCode(barCodeList: seq<string>, copies: Int32, blockCopies: bool)
      modifies this`sent
      ensures sent == old(sent) + [PrintCommands(barCodeList, copies, blockCopies)]
    {
      var commands;
      if blockCopies {
        commands := RepeatBlocks(LabelLayout(), barCodeList, copies, "P1\n");
      } else {
        commands := AppendBlocks(LabelLayout(), barCodeList, CopiesTail(copies), "");
      }
      assert commands == PrintCommands(barCodeList, copies, blockCopies);
      SendCommands(commands);
    }

    /** The text reset sends after "^@": speed, density and label width, one command per line. */
    function SetupCommands(): string
    {
      "S" + DecimalString(defaultSpeed as int) + "\n"
      + "D" + DecimalString(defaultDensity as int) + "\n"
      + "q" + DecimalString(dotWidth as int) + "\n"
    }

    /** reset: "^@" first, then the setup commands, in two sends. */
    method Reset()
      modifies this`sent
      ensures sent == old(sent) + ["^@", SetupCommands()]
    {
      SendCommands("^@");
      var commands := "S" + DecimalString(defaultSpeed as int) + "\n";
      commands := commands + "D" + DecimalString(defaultDensity as int) + "\n";
      commands := commands + "q" + DecimalString(dotWidth as int) + "\n";
      SendCommands(commands);
    }

    /** calibrate: sends "xa". */
    method Calibrate()
      modifies this`sent
      ensures sent == old(sent) + ["xa"]
    {
      SendCommands("xa");
    }

    /** Nothing is printed for an empty list, nor in block mode for copies <= 0. */
    lemma PrintNothing(barCodeList: seq<string>, copies: Int32, blockCopies: bool)
      ensures barCodeList == [] || (blockCopies && copies <= 0) ==> PrintCommands(barCodeList, copies, blockCopies) == ""
    {
      if barCodeList == [] && !blockCopies {
        assert Blocks(LabelLayout(), barCodeList, CopiesTail(copies)) == [];
      }
      if barCodeList == [] && blockCopies {
        assert Concat(Blocks(LabelLayout(), barCodeList, "P1\n")) == "";
        EmptyRepeatText(copies as int);
      }
    }

    /** Block mode sends the list of labels repeated once per copy, each label printed once. */
    lemma PrintCommandsBlockMode(barCodeList: seq<string>, copies: Int32)
      ensures PrintCommands(barCodeList, copies, true) == Concat(Repeat(Blocks(LabelLayout(), barCodeList, "P1\n"), copies as int))
    {
      RepeatTextConcat(Blocks(LabelLayout(), barCodeList, "P1\n"), copies as int);
    }
  }

  /**
   * The labels of block mode: copies * |list| of them, label c * |list| + i
   * being barcode i. The copy loop is the outer one, so the list is printed
   * whole, then whole again.
   */
  lemma BlockCopiesOrder(layout: Layout, barCodeList: seq<string>, copies: nat, c: nat, i: nat)
    requires c < copies && i < |barCodeList|
    ensures |Repeat(Blocks(layout, barCodeList, "P1\n"), copies)| == copies * |barCodeList|
    ensures c * |barCodeList| + i < copies * |barCodeList|
    ensures Repeat(Blocks(layout, barCodeList, "P1\n"), copies)[c * |barCodeList| + i] == Block(layout, barCodeList[i], "P1\n")
  {
    RepeatLength(Blocks(layout, barCodeList, "P1\n"), copies);
    RepeatAt(Blocks(layout, barCodeList, "P1\n"), copies, c, i);
  }

  lemma {:induction false} EmptyRepeatText(n: int)
    ensures RepeatText("", n) == ""
    decreases if n <= 0 then 0 else n
  {
    if n > 0 {
      EmptyRepeatText(n - 1);
    }
  }
}
