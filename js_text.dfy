/**
 * The JavaScript values a parsed JSON request body can hand to the
 * signature handler, and the text the handler makes of them: template
 * literals and `+` on a string both apply `String(value)`.  Also the
 * `split`/`join` pair a client uses on the decoded signature.
 */
module JsText {
  import opened Wrappers

  /**
   * A value read from the request body.  `Undefined` is what reading an
   * absent property gives.  Numbers are integer-valued.
   */
  datatype Value =
    | Undefined
    | Null
    | Bool(b: bool)
    | Number(n: int)
    | Str(s: string)
    | Array(items: seq<Value>)
    | Object(fields: seq<(string, Value)>)

  predicate IsDigit(c: char) { '0' <= c <= '9' }

  function DigitChar(d: nat): (c: char)
    requires d < 10
    ensures IsDigit(c)
  {
    ('0' as int + d) as char
  }

  /** The decimal digits of `n`, most significant first, without leading zeros. */
  function Digits(n: nat): (r: string)
    ensures |r| >= 1
    ensures forall i :: 0 <= i < |r| ==> IsDigit(r[i])
    ensures r[0] == '0' ==> n == 0
    decreases n
  {
    if n < 10 then [DigitChar(n)] else Digits(n / 10) + [DigitChar(n % 10)]
  }

  /**
   * `String(n)` of an integer-valued number of magnitude at most 2^53: a
   * minus sign for negatives, then the digits.
   */
  function Decimal(n: int): (r: string)
  {
    if n < 0 then "-" + Digits(-n) else Digits(n)
  }

  /** The value of a non-empty string of decimal digits. */
  function ParseDigits(s: string): (r: Option<nat>)
    decreases |s|
  {
    if |s| == 0 || !IsDigit(s[|s| - 1]) then None
    else
      var d := s[|s| - 1] as int - '0' as int;
      if |s| == 1 then Some(d)
      else match ParseDigits(s[..|s| - 1])
        case None => None
        case Some(m) => Some(m * 10 + d)
  }

  /** The client's reading of a decimal field: an optional minus sign and digits. */
  function ParseDecimal(s: string): Option<int>
  {
    if |s| > 0 && s[0] == '-' then
      match ParseDigits(s[1..])
      case None => None
      case Some(m) => Some(-(m as int))
    else match ParseDigits(s)
      case None => None
      case Some(m) => Some(m as int)
  }

  lemma {:induction false} ParseDigitsOfDigits(n: nat)
    ensures ParseDigits(Digits(n)) == Some(n)
    decreases n
  {
    if n >= 10 {
      ParseDigitsOfDigits(n / 10);
      var s := Digits(n);
      assert s[..|s| - 1] == Digits(n / 10);
    }
  }

  /** Reading a rendered integer gives it back, so a decimal field determines its number. */
  lemma ParseDecimalOfDecimal(n: int)
    ensures ParseDecimal(Decimal(n)) == Some(n)
  {
    if n < 0 {
      ParseDigitsOfDigits(-n);
      assert Decimal(n)[1..] == Digits(-n);
    } else {
      ParseDigitsOfDigits(n);
    }
  }

  /** A rendered integer is a minus sign and digits only; in particular it has no '.'. */
  lemma DecimalChars(n: int)
    ensures forall i :: 0 <= i < |Decimal(n)| ==> IsDigit(Decimal(n)[i]) || (i == 0 && Decimal(n)[i] == '-')
    ensures '.' !in Decimal(n)
  {
  }

  /** `parts` joined with `sep` between neighbours, like `Array.prototype.join`. */
  function Join<T>(parts: seq<seq<T>>, sep: T): seq<T>
  {
    if |parts| == 0 then []
    else if |parts| == 1 then parts[0]
    else parts[0] + [sep] + Join(parts[1..], sep)
  }

  /** `s` cut at every `sep`, like `String.prototype.split` with a one-character separator. */
  function Split<T(==)>(s: seq<T>, sep: T): (r: seq<seq<T>>)
    ensures |r| >= 1
    decreases |s|
  {
    if |s| == 0 then [[]]
    else
      var rest := Split(s[1..], sep);
      if s[0] == sep then [[]] + rest else [[s[0]] + rest[0]] + rest[1..]
  }

  /** A piece without the separator is not cut. */
  lemma {:induction false} SplitWithoutSep<T>(a: seq<T>, sep: T)
    requires sep !in a
    ensures Split(a, sep) == [a]
    decreases |a|
  {
    if |a| > 0 {
      SplitWithoutSep(a[1..], sep);
      assert [a[0]] + a[1..] == a;
    }
  }

  /** Splitting at the first separator peels off the piece before it. */
  lemma {:induction false} SplitAtFirst<T>(a: seq<T>, sep: T, b: seq<T>)
    requires sep !in a
    ensures Split(a + [sep] + b, sep) == [a] + Split(b, sep)
    decreases |a|
  {
    var s := a + [sep] + b;
    if |a| == 0 {
      assert s == [sep] + b;
      assert s[1..] == b;
    } else {
      assert s[1..] == a[1..] + [sep] + b;
      SplitAtFirst(a[1..], sep, b);
      assert [a[0]] + a[1..] == a;
    }
  }

  /** Splitting a join gives the parts back when no part holds the separator. */
  lemma {:induction false} SplitJoin<T>(parts: seq<seq<T>>, sep: T)
    requires |parts| >= 1
    requires forall i :: 0 <= i < |parts| ==> sep !in parts[i]
    ensures Split(Join(parts, sep), sep) == parts
    decreases |parts|
  {
    if |parts| == 1 {
      SplitWithoutSep(parts[0], sep);
    } else {
      SplitJoin(parts[1..], sep);
      SplitAtFirst(parts[0], sep, Join(parts[1..], sep));
      assert [parts[0]] + parts[1..] == parts;
    }
  }

  /**
   * Whether `String(v)` throws a TypeError.  A JSON object can carry its own
   * `toString` property, and a parsed value is never callable: conversion
   * then finds no callable `toString`, and `Object.prototype.valueOf`
   * returns the object itself, which is not a primitive.  An array throws
   * when one of its elements does, since its text joins theirs.
   */
  predicate TextThrows(v: Value)
    decreases v
  {
    match v
    case Object(fields) => exists i :: 0 <= i < |fields| && fields[i].0 == "toString"
    case Array(items) => exists i :: 0 <= i < |items| && TextThrows(items[i])
    case _ => false
  }

  /**
   * `String(v)`, the text a template literal or a string concatenation
   * makes of `v`, or `None` where that conversion throws.  Arrays render
   * their elements joined by ',' with null and undefined elements empty;
   * every object whose `toString` is inherited renders the same.
   */
  function ToText(v: Value): Option<string>
    decreases v
  {
    match v
    case Undefined => Some("undefined")
    case Null => Some("null")
    case Bool(b) => Some(if b then "true" else "false")
    case Number(n) => Some(Decimal(n))
    case Str(s) => Some(s)
    case Array(items) =>
      var texts := seq(|items|, i requires 0 <= i < |items| =>
        if items[i].Undefined? || items[i].Null? then Some("") else ToText(items[i]));
      if forall i :: 0 <= i < |texts| ==> texts[i].Some? then
        Some(Join(seq(|texts|, i requires 0 <= i < |texts| => if texts[i].Some? then texts[i].value else ""), ','))
      else None
    case Object(fields) =>
      if exists i :: 0 <= i < |fields| && fields[i].0 == "toString" then None
      else Some("[object Object]")
  }

  /** Conversion to text fails exactly on the values that make `String` throw. */
  lemma {:induction false} ToTextThrows(v: Value)
    ensures ToText(v).None? <==> TextThrows(v)
    decreases v
  {
    match v
    case Array(items) =>
      var texts := seq(|items|, i requires 0 <= i < |items| =>
        if items[i].Undefined? || items[i].Null? then Some("") else ToText(items[i]));
      forall i | 0 <= i < |items|
        ensures texts[i].None? <==> TextThrows(items[i])
      {
        ToTextThrows(items[i]);
      }
      assert ToText(v).None? <==> exists i :: 0 <= i < |texts| && texts[i].None?;
    case _ =>
  }
}
