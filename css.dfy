/** The style fragments the helpers produce, as an ordered list of rules rather than
    serialised text, so that presence, absence and order of declarations can be stated. */
module Css {
  import opened Js

  /** A number the source computes in floating point as (num / den) * scale. */
  datatype Quantity = Quantity(num: Number, den: int, scale: int)

  /** One piece of a declaration's value: literal text, or a computed number. */
  datatype Piece = Lit(text: string) | Num(q: Quantity)

  /** The CSS properties the helpers declare. */
  datatype Property =
    | Width | Height | MarginLeft | MarginRight | Margin | Position | Top | Right | Bottom | Left
    | Transform | LetterSpacing | LineHeight | FontSize | BackgroundSize | Background | BackgroundImage
    | Transition | Opacity | PointerEvents | Visibility

  /** A declaration `property: value;`. */
  datatype Declaration = Decl(property: Property, value: seq<Piece>)

  /** The declarations one helper produces, in order. */
  type Block = seq<Declaration>

  /** A rule of a stylesheet: a declaration, or an `@media query { body }` block. */
  datatype Rule = Declare(decl: Declaration) | AtMedia(query: string, body: seq<Rule>)

  type Style = seq<Rule>

  /** A helper's declarations as the style a media wrapper takes: one rule per
      declaration, in order. */
  function AsStyle(block: Block): (r: Style)
    ensures |r| == |block|
    ensures forall i :: 0 <= i < |block| ==> r[i] == Declare(block[i])
  {
    seq(|block|, i requires 0 <= i < |block| => Declare(block[i]))
  }

  function Text(s: string): seq<Piece> { [Lit(s)] }

  /** The properties a block declares, in order. */
  function Properties(block: Block): (r: seq<Property>)
    ensures |r| == |block|
    ensures forall i :: 0 <= i < |block| ==> r[i] == block[i].property
  {
    seq(|block|, i requires 0 <= i < |block| => block[i].property)
  }

  /** The value of the first declaration of `property` at or after position `from`. */
  function FindFrom(block: Block, property: Property, from: nat): (r: Option<seq<Piece>>)
    decreases |block| - from
  {
    if from >= |block| then None
    else if block[from].property == property then Some(block[from].value)
    else FindFrom(block, property, from + 1)
  }

  /** The value of the first declaration of `property`, if there is one. */
  function ValueOf(block: Block, property: Property): (r: Option<seq<Piece>>)
  {
    FindFrom(block, property, 0)
  }

  /** In a block that declares each property at most once, ValueOf finds every
      declaration's own value. */
  lemma ValueOfEach(block: Block)
    requires forall i, j :: 0 <= i < j < |block| ==> block[i].property != block[j].property
    ensures forall i :: 0 <= i < |block| ==> ValueOf(block, block[i].property) == Some(block[i].value)
  {
    forall i | 0 <= i < |block|
      ensures ValueOf(block, block[i].property) == Some(block[i].value)
    {
      ValueOfAt(block, i);
    }
  }

  /** The search from `from` finds something exactly when some declaration at or
      after `from` declares the property. */
  lemma {:induction false} FindFromFound(block: Block, property: Property, from: nat)
    ensures FindFrom(block, property, from).Some? <==> exists i :: from <= i < |block| && block[i].property == property
    decreases |block| - from
  {
    if from < |block| && block[from].property != property {
      FindFromFound(block, property, from + 1);
      assert forall i :: from <= i < |block| && block[i].property == property ==> from + 1 <= i;
    }
  }

  /** What the search from `from` finds is the value of a declaration of the property
      at or after `from`. */
  lemma {:induction false} FindFromDeclared(block: Block, property: Property, from: nat)
    ensures FindFrom(block, property, from).Some? ==>
      exists i :: from <= i < |block| && block[i] == Decl(property, FindFrom(block, property, from).value)
    decreases |block| - from
  {
    if from < |block| && block[from].property != property {
      FindFromDeclared(block, property, from + 1);
    }
  }

  /** What ValueOf finds is the value of a declaration of the property in the block. */
  lemma ValueOfDeclared(block: Block, property: Property)
    ensures ValueOf(block, property).Some? ==> Decl(property, ValueOf(block, property).value) in block
  {
    FindFromDeclared(block, property, 0);
  }

  /** ValueOf finds a value exactly for the properties the block declares. */
  lemma ValueOfFound(block: Block, property: Property)
    ensures ValueOf(block, property).Some? <==> property in Properties(block)
  {
    FindFromFound(block, property, 0);
    if property in Properties(block) {
      var i :| 0 <= i < |block| && Properties(block)[i] == property;
      assert block[i].property == property;
    }
  }

  /** The search from position |a| + j of a + b is the search from j of b. */
  lemma {:induction false} FindFromShift(a: Block, b: Block, property: Property, j: nat)
    ensures FindFrom(a + b, property, |a| + j) == FindFrom(b, property, j)
    decreases |b| - j
  {
    if j < |b| {
      assert (a + b)[|a| + j] == b[j];
      FindFromShift(a, b, property, j + 1);
    }
  }

  /** The search in a + b from a position inside a finds a's declaration if there is
      one, and otherwise b's first. */
  lemma {:induction false} FindFromConcat(a: Block, b: Block, property: Property, k: nat)
    requires k <= |a|
    ensures FindFrom(a + b, property, k) == if FindFrom(a, property, k).Some? then FindFrom(a, property, k) else FindFrom(b, property, 0)
    decreases |a| - k
  {
    if k == |a| {
      FindFromShift(a, b, property, 0);
    } else {
      assert (a + b)[k] == a[k];
      FindFromConcat(a, b, property, k + 1);
    }
  }

  /** Concatenated blocks: the first block's declaration wins; a property the first
      block lacks is looked up in the second. */
  lemma ValueOfConcat(a: Block, b: Block, property: Property)
    ensures property in Properties(a) ==> ValueOf(a + b, property) == ValueOf(a, property)
    ensures property !in Properties(a) ==> ValueOf(a + b, property) == ValueOf(b, property)
  {
    FindFromConcat(a, b, property, 0);
    ValueOfFound(a, property);
  }

  /** A declaration no earlier one shares a property with is the one ValueOf finds. */
  lemma ValueOfAt(block: Block, i: nat)
    requires i < |block|
    requires forall j :: 0 <= j < i ==> block[j].property != block[i].property
    ensures ValueOf(block, block[i].property) == Some(block[i].value)
  {
    var k := i;
    while k > 0
      invariant 0 <= k <= i
      invariant FindFrom(block, block[i].property, k) == Some(block[i].value)
    {
      k := k - 1;
    }
  }

  /** The text JavaScript gives a quantity, where it is exact: NaN, an infinity, or an
      integral quotient. A non-integral quotient needs floating-point formatting, which
      is not modelled, and gives None. */
  function QuantityText(q: Quantity): (r: Option<string>)
    ensures q.num.NaN? ==> r == Some("NaN")
    ensures q.num.Int? && q.den != 0 && q.num.i % q.den == 0 ==> r == Some(IntText(q.num.i / q.den * q.scale))
    ensures q.num.Int? && q.den != 0 && q.num.i % q.den != 0 ==> r.None?
    ensures q.num.Int? && q.den == 0 && (q.num.i == 0 || q.scale == 0) ==> r == Some("NaN")
    ensures q.num.Int? && q.den == 0 && q.num.i != 0 && q.scale != 0 ==>
      r == Some(if (q.num.i > 0) == (q.scale > 0) then "Infinity" else "-Infinity")
  {
    match q.num
    case NaN => Some("NaN")
    case Int(n) =>
      if q.den == 0 then
        if n == 0 || q.scale == 0 then Some("NaN")
        else if (n > 0) == (q.scale > 0) then Some("Infinity")
        else Some("-Infinity")
      else if n % q.den == 0 then Some(IntText(n / q.den * q.scale))
      else None
  }

  function PieceText(p: Piece): Option<string> {
    match p
    case Lit(s) => Some(s)
    case Num(q) => QuantityText(q)
  }

  /** The text of the pieces of a value from position `from` on, when every number
      among them has an exact text. */
  function ValueTextFrom(v: seq<Piece>, from: nat): (r: Option<string>)
    ensures (forall i :: from <= i < |v| ==> v[i].Lit?) ==> r.Some?
    decreases |v| - from
  {
    if from >= |v| then Some("")
    else
      match (PieceText(v[from]), ValueTextFrom(v, from + 1))
      case (Some(a), Some(b)) => Some(a + b)
      case _ => None
  }

  /** One step of ValueTextFrom, with the texts named. */
  lemma ValueTextFromStep(v: seq<Piece>, from: nat, head: string, rest: string)
    requires from < |v| && PieceText(v[from]) == Some(head) && ValueTextFrom(v, from + 1) == Some(rest)
    ensures ValueTextFrom(v, from) == Some(head + rest)
  {
  }

  /** The text of a value, when every number in it has an exact text. */
  function ValueText(v: seq<Piece>): (r: Option<string>)
    ensures (forall i :: 0 <= i < |v| ==> v[i].Lit?) ==> r.Some?
  {
    ValueTextFrom(v, 0)
  }
}
