/** The JavaScript built-ins the style helpers and the picture component call:
    number-to-text conversion, parseInt with radix 10, String.prototype.split,
    Array.prototype.join, toLowerCase, indexOf and replace with a string pattern. */
module Js {

  datatype Option<T> = None | Some(value: T)

  /** A JavaScript number as it arises here: an integer value, or NaN
      (what parseInt gives when it finds no digit). */
  datatype Number = Int(i: int) | NaN

  predicate IsDigit(c: char) { '0' <= c <= '9' }

  predicate AllDigits(s: string) { forall i :: 0 <= i < |s| ==> IsDigit(s[i]) }

  function DigitChar(d: nat): (c: char)
    requires d < 10
    ensures IsDigit(c) && c as int - '0' as int == d
  {
    ('0' as int + d) as char
  }

  /** Decimal text of a natural number, most significant digit first. */
  function NatText(n: nat): (r: string)
    ensures |r| >= 1 && AllDigits(r)
    ensures r[0] == '0' ==> n == 0
    decreases n
  {
    if n < 10 then [DigitChar(n)] else NatText(n / 10) + [DigitChar(n % 10)]
  }

  /** The value of a string of decimal digits. */
  function DigitsValue(s: string): nat
    requires AllDigits(s)
    decreases |s|
  {
    if s == [] then 0 else 10 * DigitsValue(s[..|s| - 1]) + (s[|s| - 1] as int - '0' as int)
  }

  lemma {:induction false} NatTextValue(n: nat)
    ensures DigitsValue(NatText(n)) == n
    decreases n
  {
    if n >= 10 {
      NatTextValue(n / 10);
      var s := NatText(n);
      assert s[..|s| - 1] == NatText(n / 10);
    }
  }

  /** `${n}` for an integer n: an optional minus sign, then the decimal digits. */
  function IntText(n: int): (r: string)
    ensures |r| >= 1
    ensures (r[0] == '-') <==> n < 0
    ensures AllDigits(if n < 0 then r[1..] else r)
  {
    if n < 0 then "-" + NatText(-n) else NatText(n)
  }
  /** The text of an integer is canonical: no digit part starts with '0' except the
      text "0" itself, so "-0" and "07" are never produced. */
  lemma IntTextCanonical(n: int)
    ensures n < 0 ==> |IntText(n)| >= 2 && IntText(n)[1] != '0'
    ensures n >= 0 && IntText(n)[0] == '0' ==> IntText(n) == "0"
  {
    if n < 0 {
      assert IntText(n)[1..] == NatText(-n);
    }
  }


  /** `${x}` for a number. */
  function NumberText(x: Number): (r: string)
    ensures x.Int? ==> r == IntText(x.i)
    ensures x.NaN? ==> r == "NaN"
  {
    match x
    case Int(i) => IntText(i)
    case NaN => "NaN"
  }

  /** The code points ECMAScript counts as WhiteSpace or LineTerminator,
      which parseInt skips before the number. */
  predicate IsWhiteSpace(c: char) {
    var k := c as int;
    k == 0x09 || k == 0x0A || k == 0x0B || k == 0x0C || k == 0x0D || k == 0x20 || k == 0xA0
    || k == 0x1680 || (0x2000 <= k <= 0x200A) || k == 0x2028 || k == 0x2029 || k == 0x202F
    || k == 0x205F || k == 0x3000 || k == 0xFEFF
  }

  /** The string without its leading white space. */
  function TrimStart(s: string): string
    decreases |s|
  {
    if s != [] && IsWhiteSpace(s[0]) then TrimStart(s[1..]) else s
  }

  /** TrimStart removes a prefix made of white space only, and what is left does not
      start with white space. */
  lemma {:induction false} TrimStartSkipsWhiteSpace(s: string)
    ensures var r := TrimStart(s); |r| <= |s| && r == s[|s| - |r|..]
    ensures var r := TrimStart(s); r == [] || !IsWhiteSpace(r[0])
    ensures forall i :: 0 <= i < |s| - |TrimStart(s)| ==> IsWhiteSpace(s[i])
    decreases |s|
  {
    if s != [] && IsWhiteSpace(s[0]) {
      TrimStartSkipsWhiteSpace(s[1..]);
      forall i | 0 <= i < |s| - |TrimStart(s)|
        ensures IsWhiteSpace(s[i])
      {
        if i > 0 {
          assert s[i] == s[1..][i - 1];
        }
      }
    }
  }

  /** The string without one leading sign character. */
  function Unsigned(t: string): string {
    if t != [] && (t[0] == '-' || t[0] == '+') then t[1..] else t
  }

  /** The longest prefix made of decimal digits. */
  function DigitPrefix(s: string): (r: string)
    ensures |r| <= |s| && r == s[..|r|]
    ensures AllDigits(r)
    ensures |r| == |s| || !IsDigit(s[|r|])
    decreases |s|
  {
    if s != [] && IsDigit(s[0]) then [s[0]] + DigitPrefix(s[1..]) else []
  }

  /** parseInt(s, 10): skip white space, read an optional sign and the longest
      run of decimal digits; no digit at all gives NaN, modelled as None. */
  function ParseInt(s: string): Option<int>
  {
    var t := TrimStart(s);
    var digits := DigitPrefix(Unsigned(t));
    var magnitude: int := DigitsValue(digits);
    if digits == [] then None
    else if t[0] == '-' then Some(-magnitude)
    else Some(magnitude)
  }

  /** parseInt gives NaN exactly when no digit follows the white space and the sign,
      and a negative result only after a minus sign. */
  lemma ParseIntNaN(s: string)
    ensures ParseInt(s).None? <==> DigitPrefix(Unsigned(TrimStart(s))) == []
    ensures ParseInt(s).Some? && ParseInt(s).value < 0 ==> TrimStart(s)[0] == '-'
  {
  }

  /** A run of digits stops at the first character that is not a digit. */
  lemma {:induction false} DigitPrefixOfDigits(d: string, rest: string)
    requires AllDigits(d)
    requires rest == [] || !IsDigit(rest[0])
    ensures DigitPrefix(d + rest) == d
    decreases |d|
  {
    if d != [] {
      assert (d + rest)[1..] == d[1..] + rest;
      DigitPrefixOfDigits(d[1..], rest);
    } else {
      assert d + rest == rest;
    }
  }

  /** parseInt reads back the text of an integer, whatever non-digit text follows it
      (so parseInt('500px', 10) is 500). */
  lemma ParseIntText(n: int, rest: string)
    requires rest == [] || !IsDigit(rest[0])
    ensures ParseInt(IntText(n) + rest) == Some(n)
  {
    var magnitude: nat := if n < 0 then -n else n;
    var digits := NatText(magnitude);
    NatTextValue(magnitude);
    if n < 0 {
      assert IntText(n) + rest == ['-'] + (digits + rest);
      ParseIntDigits(IntText(n) + rest, true, digits, rest);
    } else {
      ParseIntDigits(IntText(n) + rest, false, digits, rest);
    }
  }

  /** parseInt of an optional minus sign, a run of digits and a text that does not
      start with a digit is the signed value of the digits. */
  lemma ParseIntDigits(s: string, negative: bool, digits: string, rest: string)
    requires digits != [] && AllDigits(digits)
    requires rest == [] || !IsDigit(rest[0])
    requires s == if negative then ['-'] + (digits + rest) else digits + rest
    ensures var value: int := DigitsValue(digits); ParseInt(s) == Some(if negative then -value else value)
  {
    DigitPrefixOfDigits(digits, rest);
    TrimStartAt(s, if negative then '-' else digits[0]);
    assert Unsigned(s) == digits + rest;
    ParseIntOf(s, digits);
  }

  /** parseInt's value once the digits it reads are known. */
  lemma ParseIntOf(s: string, digits: string)
    requires DigitPrefix(Unsigned(TrimStart(s))) == digits && digits != []
    ensures var value: int := DigitsValue(digits); ParseInt(s) == Some(if TrimStart(s)[0] == '-' then -value else value)
  {
  }

  /** A string that starts with a sign or a digit has no white space to skip. */
  lemma TrimStartAt(s: string, c: char)
    requires s != [] && s[0] == c
    requires c == '-' || IsDigit(c)
    ensures TrimStart(s) == s
  {
    assert !IsWhiteSpace(c);
  }

  /** Concatenation of strings is associative; stated once so that proofs can name the
      regrouping they need. */
  lemma Associative(a: string, b: string, c: string)
    ensures (a + b) + c == a + (b + c)
  {
  }

  /** Dropping the first character of a concatenation drops it from the first part. */
  lemma DropFirst(a: string, b: string)
    requires a != []
    ensures (a + b)[0] == a[0] && (a + b)[1..] == a[1..] + b
  {
    var ab := a + b;
    assert |ab[1..]| == |a[1..] + b|;
    forall i | 0 <= i < |ab[1..]|
      ensures ab[1..][i] == (a[1..] + b)[i]
    {
      if i < |a| - 1 {
        assert ab[1..][i] == a[i + 1];
      } else {
        assert ab[1..][i] == b[i + 1 - |a|];
      }
    }
  }

  /** str.split(sep) for a one-character separator: the pieces between separators,
      at least one, none containing the separator. */
  function Split(s: string, sep: char): (parts: seq<string>)
    ensures |parts| >= 1
    ensures forall i :: 0 <= i < |parts| ==> sep !in parts[i]
    decreases |s|
  {
    if s == [] then [[]]
    else
      var rest := Split(s[1..], sep);
      if s[0] == sep then [[]] + rest else [[s[0]] + rest[0]] + rest[1..]
  }

  /** parts.join(sep). */
  function Join(parts: seq<string>, sep: string): (r: string)
    ensures |parts| == 1 ==> r == parts[0]
    decreases |parts|
  {
    if |parts| == 0 then []
    else if |parts| == 1 then parts[0]
    else parts[0] + sep + Join(parts[1..], sep)
  }

  /** Joining the pieces of a split with the same separator gives the string back. */
  lemma {:induction false} JoinSplit(s: string, sep: char)
    ensures Join(Split(s, sep), [sep]) == s
    decreases |s|
  {
    if s != [] {
      var rest := Split(s[1..], sep);
      JoinSplit(s[1..], sep);
      if s[0] == sep {
        assert Split(s, sep) == [[]] + rest;
        assert ([[]] + rest)[1..] == rest;
        assert Join(Split(s, sep), [sep]) == [] + [sep] + Join(rest, [sep]);
        assert s == [s[0]] + s[1..];
      } else if |rest| == 1 {
        assert Split(s, sep) == [[s[0]] + rest[0]];
        assert s == [s[0]] + s[1..];
      } else {
        var parts := Split(s, sep);
        assert parts == [[s[0]] + rest[0]] + rest[1..];
        assert parts[1..] == rest[1..];
        assert Join(rest, [sep]) == rest[0] + [sep] + Join(rest[1..], [sep]);
        assert s == [s[0]] + s[1..];
      }
    }
  }

  /** Splitting a string that holds no separator gives the string alone. */
  lemma {:induction false} SplitWithout(s: string, sep: char)
    requires sep !in s
    ensures Split(s, sep) == [s]
    decreases |s|
  {
    if s != [] {
      SplitWithout(s[1..], sep);
      assert s == [s[0]] + s[1..];
    }
  }

  /** Splitting puts a piece boundary exactly at the first separator. */
  lemma {:induction false} SplitAtSeparator(a: string, b: string, sep: char)
    requires sep !in a
    ensures Split(a + [sep] + b, sep) == [a] + Split(b, sep)
    decreases |a|
  {
    if a == [] {
      assert ([] + [sep] + b)[1..] == b;
    } else {
      assert (a + [sep] + b)[1..] == a[1..] + [sep] + b;
      SplitAtSeparator(a[1..], b, sep);
      assert [a[0]] + a[1..] == a;
    }
  }

  /** Splitting a join of separator-free pieces gives the pieces back. */
  lemma {:induction false} SplitJoin(parts: seq<string>, sep: char)
    requires |parts| >= 1
    requires forall i :: 0 <= i < |parts| ==> sep !in parts[i]
    ensures Split(Join(parts, [sep]), sep) == parts
    decreases |parts|
  {
    if |parts| == 1 {
      SplitWithout(parts[0], sep);
    } else {
      SplitJoin(parts[1..], sep);
      SplitAtSeparator(parts[0], Join(parts[1..], [sep]), sep);
      assert [parts[0]] + parts[1..] == parts;
    }
  }

  /** Split yields more than one piece exactly when the separator occurs. */
  lemma {:induction false} SplitCount(s: string, sep: char)
    ensures |Split(s, sep)| > 1 <==> sep in s
    decreases |s|
  {
    if s != [] {
      SplitCount(s[1..], sep);
      assert s == [s[0]] + s[1..];
    }
  }

  /** The join of all pieces is the join of all but the last, the separator, and the last. */
  lemma {:induction false} JoinSnoc(parts: seq<string>, sep: string)
    requires |parts| >= 2
    ensures Join(parts, sep) == Join(parts[..|parts| - 1], sep) + sep + parts[|parts| - 1]
    decreases |parts|
  {
    if |parts| > 2 {
      JoinSnoc(parts[1..], sep);
      assert parts[1..][..|parts| - 2] == parts[..|parts| - 1][1..];
    }
  }

  /** str.split(sep).pop(): the text after the last separator, the whole string when
      there is none. */
  function AfterLast(s: string, sep: char): (r: string)
    ensures sep !in r
    ensures |r| <= |s| && r == s[|s| - |r|..]
    ensures |r| < |s| ==> s[|s| - |r| - 1] == sep
    ensures sep !in s ==> r == s
  {
    var parts := Split(s, sep);
    JoinSplit(s, sep);
    SplitCount(s, sep);
    if |parts| >= 2 then JoinSnoc(parts, [sep]); parts[|parts| - 1]
    else parts[|parts| - 1]
  }

  /** str.split(sep).slice(0, -1).join(sep) + sep when there is more than one piece,
      '' otherwise: the text up to and including the last separator. */
  function UpToLast(s: string, sep: char): (r: string)
    ensures r + AfterLast(s, sep) == s
    ensures sep !in s ==> r == []
    ensures sep in s ==> |r| > 0 && r[|r| - 1] == sep
  {
    var parts := Split(s, sep);
    LastPart(s, sep);
    if |parts| > 1 then Join(parts[..|parts| - 1], [sep]) + [sep]
    else []
  }

  /** The pieces of a split before the last one, joined and followed by the separator,
      then the last piece, give the string back; there is more than one piece exactly
      when the separator occurs. */
  lemma LastPart(s: string, sep: char)
    ensures var parts := Split(s, sep);
      && AfterLast(s, sep) == parts[|parts| - 1]
      && (|parts| > 1 <==> sep in s)
      && (|parts| > 1 ==> Join(parts[..|parts| - 1], [sep]) + [sep] + parts[|parts| - 1] == s)
  {
    var parts := Split(s, sep);
    JoinSplit(s, sep);
    SplitCount(s, sep);
    if |parts| > 1 {
      JoinSnoc(parts, [sep]);
    }
  }

  function LowerChar(c: char): char {
    if 'A' <= c <= 'Z' then (c as int + 32) as char else c
  }

  /** str.toLowerCase() on the ASCII letters. */
  function ToLowerCase(s: string): (r: string)
    ensures |r| == |s|
    ensures forall i :: 0 <= i < |s| ==> r[i] == LowerChar(s[i])
    decreases |s|
  {
    if s == [] then [] else [LowerChar(s[0])] + ToLowerCase(s[1..])
  }

  predicate OccursAt(s: string, pattern: string, k: int) {
    0 <= k && k + |pattern| <= |s| && s[k..k + |pattern|] == pattern
  }

  /** str.indexOf(pattern, from): the first position at or after `from` where the
      pattern occurs. */
  function IndexOf(s: string, pattern: string, from: nat := 0): (r: Option<nat>)
    ensures r.Some? ==> from <= r.value && OccursAt(s, pattern, r.value)
    ensures r.Some? ==> forall k :: from <= k < r.value ==> !OccursAt(s, pattern, k)
    ensures r.None? ==> forall k :: from <= k ==> !OccursAt(s, pattern, k)
    decreases |s| - from
  {
    if from + |pattern| > |s| then None
    else if s[from..from + |pattern|] == pattern then Some(from)
    else IndexOf(s, pattern, from + 1)
  }

  /** The first occurrence is the one IndexOf finds. */
  lemma IndexOfFirst(s: string, pattern: string, p: nat)
    requires OccursAt(s, pattern, p)
    requires forall k :: 0 <= k < p ==> !OccursAt(s, pattern, k)
    ensures IndexOf(s, pattern) == Some(p)
  {
  }

  /** The text a `$` pattern of a replacement string stands for. */
  function PatternText(k: char, matched: string, before: string, after: string): string {
    match k
    case '$' => "$"
    case '&' => matched
    case '`' => before
    case _ => after
  }

  /** GetSubstitution of ECMAScript for a string pattern (no capture groups):
      `$$` is `$`, `$&` the match, `` $` `` the text before it, `$'` the text after it;
      every other character, including any other `$`, stands for itself. */
  function Substitution(replacement: string, matched: string, before: string, after: string): (r: string)
    ensures '$' !in replacement ==> r == replacement
    decreases |replacement|
  {
    if replacement == [] then []
    else if replacement[0] == '$' && |replacement| >= 2 && replacement[1] in "$&`'" then
      PatternText(replacement[1], matched, before, after) + Substitution(replacement[2..], matched, before, after)
    else
      [replacement[0]] + Substitution(replacement[1..], matched, before, after)
  }

  /** A `$` followed by one of `$&`'` is replaced by the text it stands for. */
  lemma SubstitutionPattern(k: char, rest: string, matched: string, before: string, after: string)
    requires k in "$&`'"
    ensures Substitution(['$', k] + rest, matched, before, after)
      == PatternText(k, matched, before, after) + Substitution(rest, matched, before, after)
  {
    var t := ['$', k] + rest;
    assert t[0] == '$' && t[1] == k && t[2..] == rest;
  }

  /** The four `$` patterns of a replacement string: `$$` is a single '$', `$&` the
      matched text, `` $` `` the text before the match and `$'` the text after it. */
  lemma SubstitutionPatterns(rest: string, matched: string, before: string, after: string)
    ensures Substitution("$$" + rest, matched, before, after) == "$" + Substitution(rest, matched, before, after)
    ensures Substitution("$&" + rest, matched, before, after) == matched + Substitution(rest, matched, before, after)
    ensures Substitution("$`" + rest, matched, before, after) == before + Substitution(rest, matched, before, after)
    ensures Substitution("$'" + rest, matched, before, after) == after + Substitution(rest, matched, before, after)
  {
    SubstitutionPattern('$', rest, matched, before, after);
    SubstitutionPattern('&', rest, matched, before, after);
    SubstitutionPattern('`', rest, matched, before, after);
    SubstitutionPattern('\'', rest, matched, before, after);
  }

  /** Any other character, and a '$' not followed by one of `$&`'`, is copied as it is. */
  lemma SubstitutionLiteral(c: char, rest: string, matched: string, before: string, after: string)
    requires c != '$' || rest == [] || rest[0] !in "$&`'"
    ensures Substitution([c] + rest, matched, before, after) == [c] + Substitution(rest, matched, before, after)
  {
    assert ([c] + rest)[1..] == rest;
  }

  /** str.replace(pattern, replacement) with a string pattern: only the first
      occurrence is replaced; without one the string is unchanged. */
  function Replace(s: string, pattern: string, replacement: string): (r: string)
    ensures IndexOf(s, pattern).None? ==> r == s
    ensures IndexOf(s, pattern).Some? ==>
      var p := IndexOf(s, pattern).value;
      r == s[..p] + Substitution(replacement, pattern, s[..p], s[p + |pattern|..]) + s[p + |pattern|..]
    ensures IndexOf(s, pattern).Some? && '$' !in replacement ==>
      var p := IndexOf(s, pattern).value; r == s[..p] + replacement + s[p + |pattern|..]
  {
    match IndexOf(s, pattern)
    case None => s
    case Some(p) =>
      s[..p] + Substitution(replacement, pattern, s[..p], s[p + |pattern|..]) + s[p + |pattern|..]
  }
}
