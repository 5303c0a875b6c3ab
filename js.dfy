/**
 * The small part of JavaScript semantics the handlers depend on:
 * null/undefined, truthiness, `String.prototype.split` with a one-character
 * separator, `Array.prototype.join`, and the decimal rendering of a
 * non-negative integer inside a template literal.
 */
module Js {

  /** A value that may be missing: `None` stands for `undefined` or `null`. */
  datatype Option<+T> = None | Some(value: T)

  /**
   * The values a handler tests with `!`: a missing field (`undefined` or
   * `null`, which are both falsy), a number or a string.
   */
  datatype Value =
    | Undefined
    | Num(x: real)   // an exact stand-in for a double; JSON cannot carry NaN
    | Str(s: string)

  /** JavaScript's ToBoolean: what `!v` negates. */
  predicate Truthy(v: Value) {
    match v
    case Undefined => false
    case Num(x) => x != 0.0
    case Str(s) => s != ""
  }

  /** A text field of a request body as a JavaScript value. */
  function OfText(o: Option<string>): Value {
    match o
    case None => Undefined
    case Some(s) => Str(s)
  }

  /** A numeric field of a request body as a JavaScript value. */
  function OfNumber(o: Option<real>): Value {
    match o
    case None => Undefined
    case Some(x) => Num(x)
  }

  /** A text field is truthy exactly when it is present and not empty. */
  lemma TextTruthy(o: Option<string>)
    ensures Truthy(OfText(o)) <==> o.Some? && o.value != ""
  {
  }

  /** A numeric field is truthy exactly when it is present and not zero. */
  lemma NumberTruthy(o: Option<real>)
    ensures Truthy(OfNumber(o)) <==> o.Some? && o.value != 0.0
  {
  }

  /**
   * `s.split(sep)` for a one-character separator: the maximal runs between
   * separators, so there is always at least one field and an empty field
   * appears between two adjacent separators.
   */
  function Split(s: string, sep: char): (fields: seq<string>)
    ensures |fields| >= 1
    ensures forall i :: 0 <= i < |fields| ==> sep !in fields[i]
    decreases |s|
  {
    if |s| == 0 then [""]
    else if s[0] == sep then [""] + Split(s[1..], sep)
    else
      var rest := Split(s[1..], sep);
      [[s[0]] + rest[0]] + rest[1..]
  }

  /** The number of characters in all the parts together. */
  function TotalLength(parts: seq<string>): nat
    decreases |parts|
  {
    if parts == [] then 0 else |parts[0]| + TotalLength(parts[1..])
  }

  /** `parts.join(sep)`; an empty array joins to the empty string. */
  function Join(parts: seq<string>, sep: string): string
    decreases |parts|
  {
    if |parts| == 0 then ""
    else if |parts| == 1 then parts[0]
    else parts[0] + sep + Join(parts[1..], sep)
  }

  /** Every part appears once in a join, with one separator between each two neighbours. */
  lemma {:induction false} JoinLength(parts: seq<string>, sep: string)
    requires parts != []
    ensures |Join(parts, sep)| == TotalLength(parts) + (|parts| - 1) * |sep|
    decreases |parts|
  {
    if |parts| > 1 {
      JoinLength(parts[1..], sep);
    }
  }

  /** Joining the fields of a split with the same separator gives back the text. */
  lemma {:induction false} JoinSplit(s: string, sep: char)
    ensures Join(Split(s, sep), [sep]) == s
    decreases |s|
  {
    if |s| == 0 {
    } else if s[0] == sep {
      JoinSplit(s[1..], sep);
      assert s == [sep] + s[1..];
    } else {
      var rest := Split(s[1..], sep);
      JoinSplit(s[1..], sep);
      if |rest| == 1 {
        assert s == [s[0]] + s[1..];
      } else {
        assert Join(rest, [sep]) == rest[0] + [sep] + Join(rest[1..], [sep]);
        assert s == [s[0]] + s[1..];
      }
    }
  }

  /** A field followed by the separator splits off as the first field. */
  lemma {:induction false} SplitAfterField(w: string, sep: char, rest: string)
    requires sep !in w
    ensures Split(w + [sep] + rest, sep) == [w] + Split(rest, sep)
    decreases |w|
  {
    if |w| == 0 {
      assert w + [sep] + rest == [sep] + rest;
    } else {
      SplitAfterField(w[1..], sep, rest);
      var s := w + [sep] + rest;
      assert s[0] == w[0] && s[0] != sep;
      assert s[1..] == w[1..] + [sep] + rest;
      assert w == [w[0]] + w[1..];
    }
  }

  /** A field followed by nothing or by a separator is the first field. */
  lemma {:induction false} SplitFirstField(w: string, sep: char, rest: string)
    requires sep !in w
    requires rest == [] || rest[0] == sep
    ensures Split(w + rest, sep)[0] == w
    decreases |w|
  {
    if |w| == 0 {
      assert w + rest == rest;
    } else {
      SplitFirstField(w[1..], sep, rest);
      assert (w + rest)[1..] == w[1..] + rest;
      assert w == [w[0]] + w[1..];
    }
  }

  /**
   * Splitting a join gives back the parts, provided no part contains the
   * separator.
   */
  lemma {:induction false} SplitJoin(parts: seq<string>, sep: char)
    requires |parts| >= 1
    requires forall i :: 0 <= i < |parts| ==> sep !in parts[i]
    ensures Split(Join(parts, [sep]), sep) == parts
    decreases |parts|
  {
    if |parts| == 1 {
      SplitFirstField(parts[0], sep, []);
      assert parts[0] + [] == parts[0];
      SplitFieldCount(parts[0], sep);
    } else {
      SplitJoin(parts[1..], sep);
      SplitAfterField(parts[0], sep, Join(parts[1..], [sep]));
      assert parts == [parts[0]] + parts[1..];
    }
  }

  /** A text without the separator is a single field. */
  lemma {:induction false} SplitFieldCount(w: string, sep: char)
    requires sep !in w
    ensures Split(w, sep) == [w]
    decreases |w|
  {
    if |w| > 0 {
      SplitFieldCount(w[1..], sep);
      assert w == [w[0]] + w[1..];
    }
  }

  /** The character of a decimal digit. */
  function DigitChar(d: nat): (c: char)
    requires d < 10
    ensures '0' <= c <= '9' && c as int - '0' as int == d
  {
    "0123456789"[d]
  }

  /** Decimal rendering of a non-negative integer, as `${n}` prints it. */
  function NatToString(n: nat): (s: string)
    ensures |s| >= 1
    ensures forall i :: 0 <= i < |s| ==> '0' <= s[i] <= '9'
    ensures s[0] == '0' ==> n == 0
    decreases n
  {
    if n < 10 then [DigitChar(n)] else NatToString(n / 10) + [DigitChar(n % 10)]
  }

  /** Reading a string of decimal digits back as a number. */
  function ParseNat(s: string): nat
    requires forall i :: 0 <= i < |s| ==> '0' <= s[i] <= '9'
    decreases |s|
  {
    if |s| == 0 then 0
    else ParseNat(s[..|s| - 1]) * 10 + (s[|s| - 1] as int - '0' as int)
  }

  /** Rendering and reading back are inverse: no two numbers print alike. */
  lemma {:induction false} ParseNatToString(n: nat)
    ensures ParseNat(NatToString(n)) == n
    decreases n
  {
    var s := NatToString(n);
    if n >= 10 {
      ParseNatToString(n / 10);
      assert s[..|s| - 1] == NatToString(n / 10);
    }
  }
}

/** The HTTP status codes the handlers answer with. */
module Http {
  const Ok := 200
  const BadRequest := 400
  const Unauthorized := 401
  const NotFound := 404
  const ServerError := 500
}
