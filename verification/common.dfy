/**
 * Values shared by every part of the model: optional values, HTTP results,
 * the dynamically typed JSON values a request body may carry, and the few
 * JavaScript string operations (truthiness, String(), trim, split, join)
 * that the handlers and the client code rely on.
 */
module Common {

  datatype Option<+T> = None | Some(value: T)

  /** A handler's outcome: a value, or an HTTP status with the `{error}` text. */
  datatype Result<+T> = Ok(value: T) | Err(code: int, message: string)

  /** Seconds since the epoch (the server's timestamptz columns). */
  type Time = int
  /** A calendar day, as a day number (a `meeting_date`). */
  type Date = int

  const HOUR: int := 3600
  const DAY: int := 86400

  /**
   * A JSON value as it arrives in a request body. Numbers are integral here;
   * fractions and NaN are not modelled.
   */
  datatype JsValue = Undefined | Null | Bool(b: bool) | Num(n: int) | Str(s: string)

  /** JavaScript truthiness: `!!v`. */
  predicate Truthy(v: JsValue) {
    match v
    case Undefined => false
    case Null => false
    case Bool(b) => b
    case Num(n) => n != 0
    case Str(s) => s != ""
  }

  /** `v ?? null`: undefined and null are both "no value". */
  predicate Nullish(v: JsValue) {
    v.Undefined? || v.Null?
  }

  /** An id as the handlers see it: `!id` rejects a missing id and the id 0. */
  predicate PresentId(id: Option<int>) {
    id.Some? && id.value != 0
  }

  function DigitChar(d: nat): (c: char)
    requires d < 10
    ensures '0' <= c <= '9'
  {
    ['0', '1', '2', '3', '4', '5', '6', '7', '8', '9'][d]
  }

  /** The digit character of `d` stands `d` places after '0'. */
  lemma DigitCharValue(d: nat)
    requires d < 10
    ensures DigitChar(d) as int - '0' as int == d
  {
  }

  /** Decimal digits of a natural number, as `String(n)` prints it. */
  function NatToDecimal(n: nat): (r: string)
    ensures |r| > 0
    ensures forall i :: 0 <= i < |r| ==> '0' <= r[i] <= '9'
  {
    if n < 10 then [DigitChar(n)] else NatToDecimal(n / 10) + [DigitChar(n % 10)]
  }

  /** `String(v)`. */
  function JsString(v: JsValue): string {
    match v
    case Undefined => "undefined"
    case Null => "null"
    case Bool(b) => if b then "true" else "false"
    case Num(n) => if n < 0 then "-" + NatToDecimal(-n) else NatToDecimal(n)
    case Str(s) => s
  }

  /** The characters `String.prototype.trim` and the regular expression class `\s` remove. */
  predicate IsSpace(c: char) {
    c == '\t' || c == '\n' || c == '\U{000B}' || c == '\U{000C}' || c == '\r' || c == ' '
    || c == '\U{00A0}' || c == '\U{1680}' || ('\U{2000}' <= c <= '\U{200A}')
    || c == '\U{2028}' || c == '\U{2029}' || c == '\U{202F}' || c == '\U{205F}'
    || c == '\U{3000}' || c == '\U{FEFF}'
  }

  predicate AllSpace(s: string) {
    forall i :: 0 <= i < |s| ==> IsSpace(s[i])
  }

  /*
   * The trimming functions carry no postconditions of their own: their
   * properties are the lemmas below, so that the many request fields the
   * handlers trim do not load every proof about them with these facts.
   */

  /** `s` without the white space it starts with. */
  function TrimStart(s: string): string {
    if s != [] && IsSpace(s[0]) then TrimStart(s[1..]) else s
  }

  /** `s` without the white space it ends with. */
  function TrimEnd(s: string): string {
    if s != [] && IsSpace(s[|s| - 1]) then TrimEnd(s[..|s| - 1]) else s
  }

  /** `s.trim()`. */
  function Trim(s: string): string {
    TrimEnd(TrimStart(s))
  }

  /** `TrimStart` cuts off a prefix of white space, up to a non-space character or the end. */
  lemma {:induction false} TrimStartShape(s: string)
    ensures var r := TrimStart(s);
            |r| <= |s| && r == s[|s| - |r|..] && AllSpace(s[..|s| - |r|])
            && (r == [] || !IsSpace(r[0]))
  {
    if s != [] && IsSpace(s[0]) {
      TrimStartShape(s[1..]);
      var r := TrimStart(s[1..]);
      assert s[..|s| - |r|] == [s[0]] + s[1..][..|s[1..]| - |r|];
    }
  }

  /** `TrimEnd` cuts off a suffix of white space, back to a non-space character or the start. */
  lemma {:induction false} TrimEndShape(s: string)
    ensures var r := TrimEnd(s);
            |r| <= |s| && r == s[..|r|] && AllSpace(s[|r|..])
            && (r == [] || !IsSpace(r[|r| - 1]))
  {
    if s != [] && IsSpace(s[|s| - 1]) {
      var t := s[..|s| - 1];
      TrimEndShape(t);
      var r := TrimEnd(t);
      assert s[|r|..] == t[|r|..] + [s[|s| - 1]];
    }
  }

  /**
   * `trim` keeps an infix: `s` is white space, then `Trim(s)`, then white
   * space, and `Trim(s)` neither starts nor ends with white space.
   */
  lemma {:induction false} TrimShape(s: string)
    ensures |Trim(s)| <= |TrimStart(s)| <= |s|
    ensures var r := Trim(s);
            var k := |s| - |TrimStart(s)|;
            k + |r| <= |s| && r == s[k..k + |r|]
            && AllSpace(s[..k]) && AllSpace(s[k + |r|..])
            && (r == [] || (!IsSpace(r[0]) && !IsSpace(r[|r| - 1])))
  {
    var t := TrimStart(s);
    var k := |s| - |t|;
    var r := TrimEnd(t);
    TrimStartShape(s);
    TrimEndShape(t);
    SuffixSlices(s, k, |r|);
  }

  /** Slicing a suffix of `s` is slicing `s` itself further on. */
  lemma SuffixSlices(s: string, k: int, n: int)
    requires 0 <= k <= |s| && 0 <= n <= |s| - k
    ensures s[k..][..n] == s[k..k + n] && s[k..][n..] == s[k + n..]
  {
  }

  /** Trimming a string that starts and ends with a non-space character gives it back. */
  lemma TrimOfTrimmed(s: string)
    requires s == [] || (!IsSpace(s[0]) && !IsSpace(s[|s| - 1]))
    ensures Trim(s) == s
  {
  }

  /** Trimming twice is trimming once. */
  lemma TrimIdempotent(s: string)
    ensures Trim(Trim(s)) == Trim(s)
  {
    TrimShape(s);
    TrimOfTrimmed(Trim(s));
  }

  /** Trimming white space off both sides of a trimmed word gives the word. */
  lemma {:induction false} TrimPadded(before: string, w: string, after: string)
    requires w != "" && !IsSpace(w[0]) && !IsSpace(w[|w| - 1])
    requires AllSpace(before) && AllSpace(after)
    ensures Trim(before + w + after) == w
  {
    TrimStartPadded(before, w + after);
    assert before + w + after == before + (w + after);
    TrimEndPadded(w, after);
  }

  lemma {:induction false} TrimStartPadded(before: string, rest: string)
    requires AllSpace(before) && rest != [] && !IsSpace(rest[0])
    ensures TrimStart(before + rest) == rest
  {
    if before != [] {
      assert (before + rest)[1..] == before[1..] + rest;
      TrimStartPadded(before[1..], rest);
    } else {
      assert before + rest == rest;
    }
  }

  lemma {:induction false} TrimEndPadded(w: string, after: string)
    requires w != [] && !IsSpace(w[|w| - 1]) && AllSpace(after)
    ensures TrimEnd(w + after) == w
  {
    if after != [] {
      var s := w + after;
      assert s[..|s| - 1] == w + after[..|after| - 1];
      TrimEndPadded(w, after[..|after| - 1]);
    } else {
      assert w + after == w;
    }
  }

  /** `v ? String(v).trim() : ""`: the trimmed text of a truthy value, else empty. */
  function TrimmedText(v: JsValue): (r: string)
    ensures !Truthy(v) ==> r == ""
    ensures Truthy(v) ==> r == Trim(JsString(v))
  {
    if Truthy(v) then Trim(JsString(v)) else ""
  }

  function Count(s: string, c: char): (n: nat)
    ensures n <= |s|
  {
    if s == [] then 0 else (if s[0] == c then 1 else 0) + Count(s[1..], c)
  }

  /** `pieces.join(sep)` for a one-character separator. */
  function JoinWith(pieces: seq<string>, sep: char): string {
    if pieces == [] then "" else if |pieces| == 1 then pieces[0] else pieces[0] + [sep] + JoinWith(pieces[1..], sep)
  }

  /**
   * `s.split(sep)` for a one-character separator: one piece more than there
   * are separators, no piece holds the separator, and joining gives `s` back.
   */
  function Split(s: string, sep: char): (r: seq<string>)
    ensures |r| == Count(s, sep) + 1
    ensures forall k :: 0 <= k < |r| ==> sep !in r[k]
    ensures JoinWith(r, sep) == s
  {
    if s == [] then [""]
    else if s[0] == sep then [""] + Split(s[1..], sep)
    else
      var rest := Split(s[1..], sep);
      [[s[0]] + rest[0]] + rest[1..]
  }

  /** Counting over a concatenation adds the counts of its parts. */
  lemma {:induction false} CountAppend(a: string, b: string, c: char)
    ensures Count(a + b, c) == Count(a, c) + Count(b, c)
  {
    if a != [] {
      assert (a + b)[1..] == a[1..] + b;
      CountAppend(a[1..], b, c);
    } else {
      assert a + b == b;
    }
  }

  /** A character occurs in a text exactly when it is counted there. */
  lemma {:induction false} CountPositive(s: string, c: char)
    ensures Count(s, c) > 0 <==> c in s
  {
    if s != [] {
      CountPositive(s[1..], c);
      assert s == [s[0]] + s[1..];
    }
  }

  /** A string without the separator splits into itself alone. */
  lemma {:induction false} SplitWithoutSeparator(s: string, sep: char)
    requires sep !in s
    ensures Split(s, sep) == [s]
  {
    var r := Split(s, sep);
    assert Count(s, sep) == 0 by { CountAbsent(s, sep); }
    assert |r| == 1;
    assert JoinWith(r, sep) == r[0];
  }

  lemma {:induction false} CountAbsent(s: string, c: char)
    requires c !in s
    ensures Count(s, c) == 0
  {
    if s != [] {
      assert c !in s[1..] by {
        forall i | 0 <= i < |s[1..]| ensures s[1..][i] != c { assert s[1..][i] == s[i + 1]; }
      }
      CountAbsent(s[1..], c);
    }
  }

  /** A piece free of the separator, then the separator, splits off as the first piece. */
  lemma {:induction false} SplitFirst(a: string, sep: char, b: string)
    requires sep !in a
    ensures Split(a + [sep] + b, sep) == [a] + Split(b, sep)
  {
    if a == [] {
      assert a + [sep] + b == [sep] + b;
      assert ([sep] + b)[1..] == b;
    } else {
      assert (a + [sep] + b)[1..] == a[1..] + [sep] + b;
      assert sep !in a[1..] by {
        forall i | 0 <= i < |a[1..]| ensures a[1..][i] != sep { assert a[1..][i] == a[i + 1]; }
      }
      SplitFirst(a[1..], sep, b);
      assert [a[0]] + a[1..] == a;
    }
  }

  /** Splitting undoes joining when no piece holds the separator. */
  lemma {:induction false} SplitJoin(pieces: seq<string>, sep: char)
    requires |pieces| >= 1
    requires forall k :: 0 <= k < |pieces| ==> sep !in pieces[k]
    ensures Split(JoinWith(pieces, sep), sep) == pieces
  {
    if |pieces| == 1 {
      SplitWithoutSeparator(pieces[0], sep);
    } else {
      SplitJoin(pieces[1..], sep);
      SplitFirst(pieces[0], sep, JoinWith(pieces[1..], sep));
      assert [pieces[0]] + pieces[1..] == pieces;
    }
  }

  /** `pieces.map(s => s.trim())`. */
  function TrimAll(pieces: seq<string>): (r: seq<string>)
    ensures |r| == |pieces|
    ensures forall k :: 0 <= k < |r| ==> r[k] == Trim(pieces[k])
  {
    seq(|pieces|, k requires 0 <= k < |pieces| => Trim(pieces[k]))
  }

  /** `filter(Boolean)` on strings: the non-empty ones, in order. */
  function NonEmpty(pieces: seq<string>): (r: seq<string>)
    ensures forall x :: x in r <==> x in pieces && x != ""
    ensures |r| <= |pieces|
  {
    if pieces == [] then []
    else if pieces[0] != "" then [pieces[0]] + NonEmpty(pieces[1..])
    else NonEmpty(pieces[1..])
  }

  /** Filtering keeps order: the kept pieces of `a + b` are those of `a`, then those of `b`. */
  lemma {:induction false} NonEmptyAppend(a: seq<string>, b: seq<string>)
    ensures NonEmpty(a + b) == NonEmpty(a) + NonEmpty(b)
  {
    if a != [] {
      assert (a + b)[1..] == a[1..] + b;
      NonEmptyAppend(a[1..], b);
    } else {
      assert a + b == b;
    }
  }

  /** A list without empty strings passes `filter(Boolean)` whole, in its order. */
  lemma {:induction false} NonEmptyAllKept(pieces: seq<string>)
    requires forall k :: 0 <= k < |pieces| ==> pieces[k] != ""
    ensures NonEmpty(pieces) == pieces
  {
    if pieces != [] {
      NonEmptyAllKept(pieces[1..]);
      assert [pieces[0]] + pieces[1..] == pieces;
    }
  }

  /** Every trimmed piece is empty or starts and ends with a non-space character. */
  lemma TrimAllTrimmed(pieces: seq<string>)
    ensures forall x :: x in TrimAll(pieces) ==> x == [] || (!IsSpace(x[0]) && !IsSpace(x[|x| - 1]))
  {
    forall k | 0 <= k < |pieces| ensures var x := TrimAll(pieces)[k]; x == [] || (!IsSpace(x[0]) && !IsSpace(x[|x| - 1])) {
      TrimShape(pieces[k]);
    }
  }

  function StartsWith(s: string, prefix: string): bool {
    |prefix| <= |s| && s[..|prefix|] == prefix
  }

  /** ASCII lower-casing; the only characters whose lower case is in "true" are its own letters in either case. */
  function AsciiLower(s: string): (r: string)
    ensures |r| == |s|
    ensures forall k :: 0 <= k < |s| ==> r[k] == LowerChar(s[k])
  {
    if s == [] then "" else [LowerChar(s[0])] + AsciiLower(s[1..])
  }

  function LowerChar(c: char): char {
    if 'A' <= c <= 'Z' then (c as int + 32) as char else c
  }

  /** Adding one element to any one of four parts adds it to their union. */
  lemma AddToPart4<T>(x: T, a: multiset<T>, b: multiset<T>, c: multiset<T>, d: multiset<T>, total: multiset<T>)
    requires a + b + c + d == total
    ensures (multiset{x} + a) + b + c + d == multiset{x} + total
    ensures a + (multiset{x} + b) + c + d == multiset{x} + total
    ensures a + b + (multiset{x} + c) + d == multiset{x} + total
    ensures a + b + c + (multiset{x} + d) == multiset{x} + total
  {
  }

  /** Adding one element to any one of three parts adds it to their union. */
  lemma AddToPart3<T>(x: T, a: multiset<T>, b: multiset<T>, c: multiset<T>, total: multiset<T>)
    requires a + b + c == total
    ensures (multiset{x} + a) + b + c == multiset{x} + total
    ensures a + (multiset{x} + b) + c == multiset{x} + total
    ensures a + b + (multiset{x} + c) == multiset{x} + total
  {
  }
}
