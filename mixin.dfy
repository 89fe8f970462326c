/** The style-fragment helpers: each turns design tokens into a list of declarations. */
module Mixin {
  import opened Js
  import opened Css

  /** A length as callers pass it: a number (a pixel count) or text that already
      carries its unit, such as "50%" or "calc(100% - 10px)". */
  datatype Dimension = Length(n: Number) | Raw(s: string)

  /** addPixel: a number gets the unit px, text is returned as it is. */
  function AddPixel(d: Dimension): (r: string)
    ensures d.Length? && d.n.Int? ==> r == IntText(d.n.i) + "px"
    ensures d.Length? && d.n.NaN? ==> r == "NaNpx"
    ensures d.Raw? ==> r == d.s
  {
    match d
    case Length(n) => NumberText(n) + "px"
    case Raw(s) => s
  }

  /** addPixel does nothing to its own output. */
  lemma AddPixelIdempotent(d: Dimension)
    ensures AddPixel(Raw(AddPixel(d))) == AddPixel(d)
  {
  }

  /** parseInt reads the pixel count back out of addPixel's output. */
  lemma AddPixelParses(n: int)
    ensures ParseInt(AddPixel(Length(Int(n)))) == Some(n)
  {
    ParseIntText(n, "px");
  }

  /** size: a width declaration, then a height declaration, both through addPixel;
      the height defaults to the width. */
  function Size(width: Dimension, height: Dimension := width): (r: Block)
    ensures Properties(r) == [Width, Height]
    ensures ValueOf(r, Width) == Some(Text(AddPixel(width)))
    ensures ValueOf(r, Height) == Some(Text(AddPixel(height)))
  {
    var r := [Decl(Width, Text(AddPixel(width))), Decl(Height, Text(AddPixel(height)))];
    ValueOfEach(r);
    assert r[0].property == Width && r[1].property == Height;
    r
  }

  /** size(w) is the square size(w, w). */
  lemma SizeSquare(w: Dimension)
    ensures Size(w) == Size(w, w)
    ensures ValueOf(Size(w), Width) == ValueOf(Size(w), Height)
  {
  }

  /** contentCentering: horizontal auto margins at a fixed width. */
  function ContentCentering(width: Dimension): (r: Block)
    ensures Properties(r) == [MarginLeft, MarginRight, Position, Width]
    ensures ValueOf(r, MarginLeft) == Some(Text("auto"))
    ensures ValueOf(r, MarginRight) == Some(Text("auto"))
    ensures ValueOf(r, Position) == Some(Text("relative"))
    ensures ValueOf(r, Width) == Some(Text(AddPixel(width)))
  {
    var r := [ Decl(MarginLeft, Text("auto")),
               Decl(MarginRight, Text("auto")),
               Decl(Position, Text("relative")),
               Decl(Width, Text(AddPixel(width))) ];
    ValueOfEach(r);
    assert r[0].property == MarginLeft && r[1].property == MarginRight;
    assert r[2].property == Position && r[3].property == Width;
    r
  }

  /** JavaScript truthiness of an optional string: present and not empty. */
  predicate Truthy(s: Option<string>) { s.Some? && s.value != "" }

  /** `height || '0'`. */
  function OrZero(s: Option<string>): (r: string)
    ensures r != ""
    ensures Truthy(s) ==> r == s.value
    ensures !Truthy(s) ==> r == "0"
  {
    if Truthy(s) then s.value else "0"
  }

  /** parseInt(s, 10) as a number: NaN when no digit is found. */
  function Parsed(s: string): (r: Number)
    ensures r.NaN? <==> ParseInt(s).None?
    ensures r.Int? ==> ParseInt(s) == Some(r.i)
  {
    match ParseInt(s)
    case Some(n) => Int(n)
    case None => NaN
  }

  /** The margin of the fixed-size block: minus half the height on top, minus half the
      width on the left. */
  function HalfMargin(w: Number, h: Number): (r: seq<Piece>)
    ensures |r| == 4 && r[0] == Num(Quantity(h, -2, 1)) && r[2] == Num(Quantity(w, -2, 1))
    ensures r[1] == Lit("px 0 0 ") && r[3] == Lit("px")
  {
    [Num(Quantity(h, -2, 1)), Lit("px 0 0 "), Num(Quantity(w, -2, 1)), Lit("px")]
  }

  /** The declarations after the sizes in the fixed-size block: absolute position at
      50%/50%, pulled back by the margin. */
  function Placement(w: Number, h: Number): (r: Block)
    ensures Properties(r) == [Position, Top, Left, Margin]
    ensures ValueOf(r, Position) == Some(Text("absolute"))
    ensures ValueOf(r, Top) == Some(Text("50%")) && ValueOf(r, Left) == Some(Text("50%"))
    ensures ValueOf(r, Margin) == Some(HalfMargin(w, h))
  {
    var r := [ Decl(Position, Text("absolute")),
               Decl(Top, Text("50%")),
               Decl(Left, Text("50%")),
               Decl(Margin, HalfMargin(w, h)) ];
    assert r[0].property == Position && r[1].property == Top;
    assert r[2].property == Left && r[3].property == Margin;
    ValueOfEach(r);
    r
  }

  /** The fixed-size block of centering(width, height): the parsed sizes, absolute
      position at 50%/50%, and margins of minus half the height (top) and minus half
      the width (left). */
  function FixedCentering(w: Number, h: Number): (r: Block)
    ensures Properties(r) == [Width, Height, Position, Top, Left, Margin]
    ensures ValueOf(r, Width) == Some(Text(AddPixel(Length(w))))
    ensures ValueOf(r, Height) == Some(Text(AddPixel(Length(h))))
    ensures ValueOf(r, Position) == Some(Text("absolute"))
    ensures ValueOf(r, Top) == Some(Text("50%")) && ValueOf(r, Left) == Some(Text("50%"))
    ensures ValueOf(r, Margin) == Some(HalfMargin(w, h))
  {
    var sized := Size(Length(w), Length(h));
    var placed := Placement(w, h);
    assert Properties(sized + placed) == Properties(sized) + Properties(placed);
    ValueOfConcat(sized, placed, Width);
    ValueOfConcat(sized, placed, Height);
    ValueOfConcat(sized, placed, Position);
    ValueOfConcat(sized, placed, Top);
    ValueOfConcat(sized, placed, Left);
    ValueOfConcat(sized, placed, Margin);
    sized + placed
  }

  /** The block of centering({ type: 'absolute' }): stretched to all four edges. */
  function StretchBlock(): (r: Block)
    ensures Properties(r) == [Position, Top, Right, Bottom, Left]
    ensures ValueOf(r, Position) == Some(Text("absolute"))
    ensures ValueOf(r, Top) == Some(Text("0")) && ValueOf(r, Right) == Some(Text("0"))
    ensures ValueOf(r, Bottom) == Some(Text("0")) && ValueOf(r, Left) == Some(Text("0"))
  {
    var r := [ Decl(Position, Text("absolute")),
               Decl(Top, Text("0")),
               Decl(Right, Text("0")),
               Decl(Bottom, Text("0")),
               Decl(Left, Text("0")) ];
    assert r[0].property == Position && r[1].property == Top && r[2].property == Right;
    assert r[3].property == Bottom && r[4].property == Left;
    ValueOfEach(r);
    r
  }

  /** The block of centering({ type: 'translate' }): at 50%/50%, shifted back by half
      its own size. */
  function TranslateBlock(): (r: Block)
    ensures Properties(r) == [Position, Top, Left, Transform]
    ensures ValueOf(r, Position) == Some(Text("absolute"))
    ensures ValueOf(r, Top) == Some(Text("50%")) && ValueOf(r, Left) == Some(Text("50%"))
    ensures ValueOf(r, Transform) == Some(Text("translate(-50%, -50%)"))
  {
    var r := [ Decl(Position, Text("absolute")),
               Decl(Top, Text("50%")),
               Decl(Left, Text("50%")),
               Decl(Transform, Text("translate(-50%, -50%)")) ];
    assert r[0].property == Position && r[1].property == Top;
    assert r[2].property == Left && r[3].property == Transform;
    ValueOfEach(r);
    r
  }

  /** centering: three exclusive modes chosen by the shape of the arguments. A
      non-empty width selects the fixed-size block, whatever `kind` is, with the
      height defaulting to the width and a missing height read as '0'; without a
      width, `kind` names the stretch or translate block; anything else gives nothing. */
  function Centering(width: Option<string> := None, height: Option<string> := width,
                     kind: Option<string> := None): (r: Block)
    ensures Truthy(width) ==> r == FixedCentering(Parsed(width.value), Parsed(OrZero(height)))
    ensures !Truthy(width) && kind == Some("absolute") ==> r == StretchBlock()
    ensures !Truthy(width) && kind == Some("translate") ==> r == TranslateBlock()
    ensures !Truthy(width) && kind != Some("absolute") && kind != Some("translate") ==> r == []
  {
    if Truthy(width) then
      FixedCentering(Parsed(width.value), Parsed(OrZero(height)))
    else if Truthy(kind) then
      match kind.value
      case "absolute" => StretchBlock()
      case "translate" => TranslateBlock()
      case _ => []
    else []
  }

  /** With a width, the mode argument plays no part. */
  lemma CenteringWidthWins(width: Option<string>, height: Option<string>, kind: Option<string>)
    requires Truthy(width)
    ensures Centering(width, height, kind) == Centering(width, height, None)
  {
  }

  /** Without a height argument the height is the width: the fixed block is square
      in the parsed width. */
  lemma CenteringSquare(width: string)
    requires width != ""
    ensures Centering(Some(width)) == FixedCentering(Parsed(width), Parsed(width))
  {
  }

  /** parseInt('0') is 0, and addPixel(0) is "0px". */
  lemma ZeroPixels()
    ensures Parsed("0") == Int(0)
    ensures AddPixel(Length(Int(0))) == "0px"
  {
    ParseIntText(0, "");
    assert IntText(0) + "" == "0";
  }

  /** A width in which parseInt finds no number (the one fault path) gives the sizes
      "NaNpx" rather than an error. */
  lemma CenteringNotANumber(width: string, height: Option<string>, kind: Option<string>)
    requires width != ""
    requires ParseInt(width).None?
    ensures ValueOf(Centering(Some(width), height, kind), Width) == Some(Text("NaNpx"))
  {
    var r := FixedCentering(NaN, Parsed(OrZero(height)));
    assert Parsed(width) == NaN;
    assert Centering(Some(width), height, kind) == r;
  }

  /** A missing or empty height is taken as 0. */
  lemma CenteringZeroHeight(width: string, height: Option<string>, kind: Option<string>)
    requires width != ""
    requires !Truthy(height)
    ensures ValueOf(Centering(Some(width), height, kind), Height) == Some(Text("0px"))
  {
    ZeroPixels();
    assert OrZero(height) == "0";
    var r := FixedCentering(Parsed(width), Int(0));
    assert Centering(Some(width), height, kind) == r;
    assert ValueOf(r, Height) == Some(Text(AddPixel(Length(Int(0)))));
  }

  /** Widths and heights written as integers followed by a unit select the fixed
      block with exactly those integers. */
  lemma CenteringParses(w: int, h: int, wUnit: string, hUnit: string, kind: Option<string>)
    requires wUnit == [] || !IsDigit(wUnit[0])
    requires hUnit == [] || !IsDigit(hUnit[0])
    ensures Centering(Some(IntText(w) + wUnit), Some(IntText(h) + hUnit), kind) == FixedCentering(Int(w), Int(h))
  {
    var width, height := IntText(w) + wUnit, IntText(h) + hUnit;
    ParseIntText(w, wUnit);
    ParseIntText(h, hUnit);
    assert Parsed(width) == Int(w);
    assert OrZero(Some(height)) == height;
    assert Parsed(height) == Int(h);
    assert Centering(Some(width), Some(height), kind) == FixedCentering(Parsed(width), Parsed(height));
  }

  /** Halving an even number through a divisor of -2 is exact and negates the half. */
  lemma NegativeHalf(n: int)
    requires n % 2 == 0
    ensures n % -2 == 0 && n / -2 * 1 == -(n / 2)
  {
    var k := n / 2;
    assert n == 2 * k;
  }

  /** The margin value of the fixed block, for even sizes: minus half the height on
      top and minus half the width on the left. */
  lemma MarginText(w: int, h: int)
    requires w % 2 == 0 && h % 2 == 0
    ensures ValueText(HalfMargin(Int(w), Int(h))) == Some(IntText(-(h / 2)) + "px 0 0 " + IntText(-(w / 2)) + "px")
  {
    var m := HalfMargin(Int(w), Int(h));
    var top, left := IntText(-(h / 2)), IntText(-(w / 2));
    NegativeHalf(h);
    NegativeHalf(w);
    ValueTextFromStep(m, 3, "px", "");
    assert "px" + "" == "px";
    ValueTextFromStep(m, 2, left, "px");
    ValueTextFromStep(m, 1, "px 0 0 ", left + "px");
    ValueTextFromStep(m, 0, top, "px 0 0 " + (left + "px"));
    assert top + ("px 0 0 " + (left + "px")) == top + "px 0 0 " + left + "px";
  }

  /** Centering pixel lengths: the sizes are the parsed lengths, and for even lengths
      the margin is minus half the height on top and minus half the width on the left. */
  lemma CenteringPixels(w: int, h: int, wUnit: string, hUnit: string, kind: Option<string>)
    requires wUnit == [] || !IsDigit(wUnit[0])
    requires hUnit == [] || !IsDigit(hUnit[0])
    ensures var r := Centering(Some(IntText(w) + wUnit), Some(IntText(h) + hUnit), kind);
      && ValueOf(r, Width) == Some(Text(IntText(w) + "px"))
      && ValueOf(r, Height) == Some(Text(IntText(h) + "px"))
      && ValueOf(r, Margin).Some?
      && (w % 2 == 0 && h % 2 == 0 ==>
            ValueText(ValueOf(r, Margin).value) == Some(IntText(-(h / 2)) + "px 0 0 " + IntText(-(w / 2)) + "px"))
  {
    CenteringParses(w, h, wUnit, hUnit, kind);
    if w % 2 == 0 && h % 2 == 0 {
      MarginText(w, h);
    }
  }

  /** letterSpacing: the spacing in thousandths of an em. */
  function LetterSpacingDecl(letterSpacingSize: int): (r: Declaration)
    ensures r.property == LetterSpacing
    ensures r.value == [Num(Quantity(Int(letterSpacingSize), 1000, 1)), Lit("em")]
  {
    Decl(LetterSpacing, [Num(Quantity(Int(letterSpacingSize), 1000, 1)), Lit("em")])
  }

  /** lineHeight: the unitless ratio of the line height to the font size. */
  function LineHeightDecl(fontSize: int, lineHeightSize: int): (r: Declaration)
    ensures r.property == LineHeight
    ensures r.value == [Num(Quantity(Int(lineHeightSize), fontSize, 1))]
  {
    Decl(LineHeight, [Num(Quantity(Int(lineHeightSize), fontSize, 1))])
  }

  /** The shape every font helper's output has: a letter-spacing declaration exactly
      when a spacing is given, then a line-height declaration exactly when a line
      height is given, then font-size, always last. */
  predicate FontShaped(r: Block, fontSize: int, lineHeightSize: Option<int>, letterSpacingSize: Option<int>) {
    && Properties(r) == (if letterSpacingSize.Some? then [LetterSpacing] else [])
                        + (if lineHeightSize.Some? then [LineHeight] else []) + [FontSize]
    && (letterSpacingSize.Some? ==> r[0] == LetterSpacingDecl(letterSpacingSize.value))
    && (lineHeightSize.Some? ==> r[|r| - 2] == LineHeightDecl(fontSize, lineHeightSize.value))
  }

  /** The declarations the three font helpers share, around the font-size value. */
  function FontBlock(fontSize: int, lineHeightSize: Option<int>, letterSpacingSize: Option<int>,
                     fontSizeValue: seq<Piece>): (r: Block)
    ensures FontShaped(r, fontSize, lineHeightSize, letterSpacingSize)
    ensures ValueOf(r, FontSize) == Some(fontSizeValue)
  {
    var spacing := if letterSpacingSize.Some? then [LetterSpacingDecl(letterSpacingSize.value)] else [];
    var leading := if lineHeightSize.Some? then [LineHeightDecl(fontSize, lineHeightSize.value)] else [];
    var r := spacing + leading + [Decl(FontSize, fontSizeValue)];
    assert Properties(r) == Properties(spacing) + Properties(leading) + [FontSize];
    ValueOfAt(r, |r| - 1);
    r
  }

  /** fontPixel: the font size in px. */
  function FontPixel(fontSize: int, lineHeightSize: Option<int> := None,
                     letterSpacingSize: Option<int> := None): (r: Block)
    ensures FontShaped(r, fontSize, lineHeightSize, letterSpacingSize)
    ensures ValueOf(r, FontSize) == Some(Text(IntText(fontSize) + "px"))
  {
    FontBlock(fontSize, lineHeightSize, letterSpacingSize, Text(IntText(fontSize) + "px"))
  }

  /** fontRem: the font size divided by 10, in rem. */
  function FontRem(fontSize: int, lineHeightSize: Option<int> := None,
                   letterSpacingSize: Option<int> := None): (r: Block)
    ensures FontShaped(r, fontSize, lineHeightSize, letterSpacingSize)
    ensures ValueOf(r, FontSize) == Some([Num(Quantity(Int(fontSize), 10, 1)), Lit("rem")])
  {
    FontBlock(fontSize, lineHeightSize, letterSpacingSize, [Num(Quantity(Int(fontSize), 10, 1)), Lit("rem")])
  }

  /** fontVW: the font size as a percentage of the narrow canvas width, in vw. */
  function FontVW(spCanvasWidth: int, fontSize: int, lineHeightSize: Option<int> := None,
                  letterSpacingSize: Option<int> := None): (r: Block)
    ensures FontShaped(r, fontSize, lineHeightSize, letterSpacingSize)
    ensures ValueOf(r, FontSize) == Some([Num(Quantity(Int(fontSize), spCanvasWidth, 100)), Lit("vw")])
  {
    FontBlock(fontSize, lineHeightSize, letterSpacingSize,
              [Num(Quantity(Int(fontSize), spCanvasWidth, 100)), Lit("vw")])
  }

  /** fontRem(20) is the one declaration `font-size: 2rem`. */
  lemma FontRemPlain()
    ensures |FontRem(20)| == 1
    ensures ValueText(ValueOf(FontRem(20), FontSize).value) == Some("2rem")
  {
    var v := [Num(Quantity(Int(20), 10, 1)), Lit("rem")];
    assert ValueOf(FontRem(20), FontSize) == Some(v);
    assert |Properties(FontRem(20))| == 1;
    assert QuantityText(Quantity(Int(20), 10, 1)) == Some("2") by {
      assert NatText(2) == "2";
    }
    assert ValueTextFrom(v, 2) == Some("");
    assert PieceText(v[1]) == Some("rem");
    assert ValueTextFrom(v, 1) == Some("rem" + "");
    assert "rem" + "" == "rem";
    assert PieceText(v[0]) == Some("2");
    assert ValueTextFrom(v, 0) == Some("2" + "rem");
    assert "2" + "rem" == "2rem";
  }

  /** `${x}` for a value that may be null: emotion renders null as nothing. */
  function OrEmpty(s: Option<string>): (r: string)
    ensures s.None? ==> r == ""
    ensures s.Some? ==> r == s.value
  {
    if s.Some? then s.value else ""
  }

  /** bgImg: one background layer, preceded by a background-size declaration only
      when a (non-empty) size is given. */
  function BgImg(fileName: string, position: string := "center top", repeat: Option<string> := None,
                 bgColor: Option<string> := None, bgSize: Option<string> := None): (r: Block)
    ensures Properties(r) == (if Truthy(bgSize) then [BackgroundSize] else []) + [Background]
    ensures ValueOf(r, BackgroundSize) == if Truthy(bgSize) then Some(Text(bgSize.value)) else None
    ensures ValueOf(r, Background) == Some(Text("url(" + fileName + ") " + position + " "
                                                + OrEmpty(repeat) + " " + OrEmpty(bgColor)))
  {
    var sizing := if Truthy(bgSize) then [Decl(BackgroundSize, Text(bgSize.value))] else [];
    var layer := [Decl(Background, Text("url(" + fileName + ") " + position + " " + OrEmpty(repeat) + " " + OrEmpty(bgColor)))];
    ValueOfAt(layer, 0);
    ValueOfFound(layer, BackgroundSize);
    assert Truthy(bgSize) ==> ValueOf(sizing, BackgroundSize) == Some(Text(bgSize.value)) by {
      if Truthy(bgSize) { ValueOfAt(sizing, 0); }
    }
    ValueOfConcat(sizing, layer, BackgroundSize);
    ValueOfConcat(sizing, layer, Background);
    assert Properties(sizing + layer) == Properties(sizing) + Properties(layer);
    sizing + layer
  }

  /** `list[i] ?? ''`: the entry at i, or the empty string past the end. */
  function At(list: seq<string>, i: nat): (r: string)
    ensures i < |list| ==> r == list[i]
    ensures i >= |list| ==> r == ""
  {
    if i < |list| then list[i] else ""
  }

  /** One layer of bgImgMultiple. */
  function Layer(image: string, position: string, repeat: string, color: string, size: string): (r: string)
    ensures |r| == |image| + |position| + |repeat| + |color| + |size| + 9
    ensures r[..4] == "url(" && r[4..4 + |image|] == image && r[|r| - |size|..] == size
    ensures r == "url(" + image + ") " + position + " " + repeat + " " + color + " " + size
  {
    "url(" + image + ") " + position + " " + repeat + " " + color + " " + size
  }

  /** The layers of bgImgMultiple, one per file name, in order. */
  function Layers(fileName: seq<string>, positions: seq<string>, repeat: seq<string>,
                  bgColor: seq<string>, sizes: seq<string>): (r: seq<string>)
    ensures |r| == |fileName|
    ensures forall i :: 0 <= i < |fileName| ==>
      r[i] == Layer(fileName[i], At(positions, i), At(repeat, i), At(bgColor, i), At(sizes, i))
  {
    seq(|fileName|, i requires 0 <= i < |fileName| =>
      Layer(fileName[i], At(positions, i), At(repeat, i), At(bgColor, i), At(sizes, i)))
  }

  /** bgImgMultiple: one background-image declaration whose layers are joined by ", ". */
  function BgImgMultiple(fileName: seq<string>, positions: seq<string> := [], repeat: seq<string> := [],
                         bgColor: seq<string> := [], sizes: seq<string> := []): (r: Block)
    ensures Properties(r) == [BackgroundImage]
    ensures ValueOf(r, BackgroundImage) == Some(Text(Join(Layers(fileName, positions, repeat, bgColor, sizes), ", ")))
  {
    [Decl(BackgroundImage, Text(Join(Layers(fileName, positions, repeat, bgColor, sizes), ", ")))]
  }

  /** The list cut to at most n entries. */
  function Take(list: seq<string>, n: nat): (r: seq<string>)
    ensures |r| == if |list| < n then |list| else n
    ensures r == list[..|r|]
  {
    if |list| <= n then list else list[..n]
  }

  /** Entries beyond the number of file names play no part. */
  lemma BgImgMultipleIgnoresExtra(fileName: seq<string>, positions: seq<string>, repeat: seq<string>,
                                  bgColor: seq<string>, sizes: seq<string>)
    ensures var n := |fileName|;
      BgImgMultiple(fileName, positions, repeat, bgColor, sizes)
      == BgImgMultiple(fileName, Take(positions, n), Take(repeat, n), Take(bgColor, n), Take(sizes, n))
  {
    var n := |fileName|;
    assert Layers(fileName, positions, repeat, bgColor, sizes)
        == Layers(fileName, Take(positions, n), Take(repeat, n), Take(bgColor, n), Take(sizes, n));
  }

  /** A list shorter than the file names behaves as if padded with empty strings. */
  lemma BgImgMultipleMissingIsEmpty(fileName: seq<string>, positions: seq<string>, repeat: seq<string>,
                                    bgColor: seq<string>, sizes: seq<string>, k: nat)
    ensures var blanks := seq(k, _ => "");
      BgImgMultiple(fileName, positions, repeat, bgColor, sizes)
      == BgImgMultiple(fileName, positions + blanks, repeat + blanks, bgColor + blanks, sizes + blanks)
  {
    var blanks := seq(k, _ => "");
    assert forall list: seq<string>, i: nat :: At(list, i) == At(list + blanks, i);
    assert Layers(fileName, positions, repeat, bgColor, sizes)
        == Layers(fileName, positions + blanks, repeat + blanks, bgColor + blanks, sizes + blanks);
  }

  /** The transition of toggleDisplay: opacity and visibility over the same duration
      and easing. */
  function FadeValue(duration: Quantity, easing: string): (r: seq<Piece>)
    ensures |r| == 5 && r[1] == Num(duration) && r[3] == Num(duration)
    ensures r[0] == Lit("opacity ") && r[2] == Lit("s " + easing + ", visibility ") && r[4] == Lit("s " + easing)
  {
    [Lit("opacity "), Num(duration), Lit("s " + easing + ", visibility "), Num(duration), Lit("s " + easing)]
  }

  /** The shown or hidden state of toggleDisplay. */
  function VisibilityState(visible: bool): (r: Block)
    ensures Properties(r) == [Opacity, PointerEvents, Visibility]
    ensures ValueOf(r, Opacity) == Some(Text(if visible then "1" else "0"))
    ensures ValueOf(r, PointerEvents) == Some(Text(if visible then "auto" else "none"))
    ensures ValueOf(r, Visibility) == Some(Text(if visible then "visible" else "hidden"))
  {
    var r := [ Decl(Opacity, Text(if visible then "1" else "0")),
               Decl(PointerEvents, Text(if visible then "auto" else "none")),
               Decl(Visibility, Text(if visible then "visible" else "hidden")) ];
    ValueOfEach(r);
    assert r[0].property == Opacity && r[1].property == PointerEvents && r[2].property == Visibility;
    r
  }

  /** toggleDisplay: the shown or hidden state, preceded by a transition on opacity and
      visibility only when a transition is asked for. */
  function ToggleDisplay(visible: bool, transition: bool := false,
                         duration: Quantity := Quantity(Int(1), 2, 1), easing: string := ""): (r: Block)
    ensures Properties(r) == (if transition then [Transition] else []) + [Opacity, PointerEvents, Visibility]
    ensures ValueOf(r, Transition) == if transition then Some(FadeValue(duration, easing)) else None
    ensures ValueOf(r, Opacity) == Some(Text(if visible then "1" else "0"))
    ensures ValueOf(r, PointerEvents) == Some(Text(if visible then "auto" else "none"))
    ensures ValueOf(r, Visibility) == Some(Text(if visible then "visible" else "hidden"))
  {
    var fade := if transition then [Decl(Transition, FadeValue(duration, easing))] else [];
    var state := VisibilityState(visible);
    assert transition ==> ValueOf(fade, Transition) == Some(FadeValue(duration, easing)) by {
      if transition { ValueOfAt(fade, 0); }
    }
    ValueOfFound(state, Transition);
    ValueOfConcat(fade, state, Transition);
    ValueOfConcat(fade, state, Opacity);
    ValueOfConcat(fade, state, PointerEvents);
    ValueOfConcat(fade, state, Visibility);
    assert Properties(fade + state) == Properties(fade) + Properties(state);
    fade + state
  }

  /** The style a media wrapper produces: the given style inside `@media query { }`. */
  function Wrap(query: string, style: Style): (r: Style)
    ensures |r| == 1 && r[0].AtMedia?
    ensures r[0].query == query && r[0].body == style
  {
    [AtMedia(query, style)]
  }

  /** A helper's declarations passed to a media wrapper all end up inside the one
      `@media` rule, unchanged and in their order. */
  lemma WrapKeepsDeclarations(query: string, block: Block)
    ensures var r := Wrap(query, AsStyle(block));
      |r[0].body| == |block| && forall i :: 0 <= i < |block| ==> r[0].body[i] == Declare(block[i])
  {
  }

  /** media: one wrapper per breakpoint name of the configuration, built by adding
      the labels one at a time to an accumulator. */
  method Media(mediaQueries: map<string, string>) returns (media: map<string, Style -> Style>)
    ensures media.Keys == mediaQueries.Keys
    ensures forall name, style :: name in media ==> media[name](style) == [AtMedia(mediaQueries[name], style)]
  {
    media := map[];
    var pending := mediaQueries.Keys;
    while pending != {}
      invariant pending <= mediaQueries.Keys
      invariant media.Keys == mediaQueries.Keys - pending
      invariant forall name, style :: name in media ==> media[name](style) == Wrap(mediaQueries[name], style)
      decreases pending
    {
      var name :| name in pending;
      var query := mediaQueries[name];
      media := media[name := (style: Style) => Wrap(query, style)];
      pending := pending - {name};
    }
  }
}
