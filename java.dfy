/** The parts of the Java runtime the sink relies on: nullable references,
    signed bytes, 32-bit `int` arithmetic, `String.split` with a one-character
    separator and `Arrays.toString(byte[])`. */
module Java {

  /** A nullable reference: `None` stands for Java's `null`. */
  datatype Option<+T> = None | Some(value: T)

  /** Java's signed `byte`. */
  newtype JByte = x: int | -128 <= x < 128

  const IntMin: int := -0x8000_0000
  const IntMax: int := 0x7FFF_FFFF

  predicate IsInt(x: int) { IntMin <= x <= IntMax }

  /** A value of Java's `int` type. */
  type JInt = x: int | IntMin <= x <= IntMax

  /** The Java `int` that arithmetic producing `x` yields: two's-complement wrap-around. */
  function Int32(x: int): (r: int)
    ensures IsInt(r)
    ensures (r - x) % 0x1_0000_0000 == 0
    ensures IsInt(x) ==> r == x
  {
    (x - IntMin) % 0x1_0000_0000 + IntMin
  }

  // ---------------------------------------------------------------------------
  // String.split with a single literal separator character and limit 0

  /** Every piece of `s` between separators, empty pieces included; never empty. */
  function SplitAll(s: string, sep: char): (parts: seq<string>)
    ensures |parts| >= 1
  {
    if s == [] then [[]]
    else
      var rest := SplitAll(s[1..], sep);
      if s[0] == sep then [[]] + rest else [[s[0]] + rest[0]] + rest[1..]
  }

  /** The inverse of `SplitAll`: the pieces glued back with the separator. */
  function Join(parts: seq<string>, sep: char): string
    requires |parts| >= 1
  {
    if |parts| == 1 then parts[0] else parts[0] + [sep] + Join(parts[1..], sep)
  }

  /** Removes the empty strings at the end, as `String.split` does with limit 0. */
  function DropTrailingEmpty(parts: seq<string>): (r: seq<string>)
    ensures |r| <= |parts| && r == parts[..|r|]
    ensures r == [] || r[|r| - 1] != []
    ensures forall i :: |r| <= i < |parts| ==> parts[i] == []
  {
    if parts == [] then []
    else if parts[|parts| - 1] == [] then DropTrailingEmpty(parts[..|parts| - 1])
    else parts
  }

  /** `s.split(sep)` for a separator that is not a regular-expression
      metacharacter: without any separator the string itself comes back whole
      (even when empty); otherwise the pieces minus trailing empty ones. No
      piece holds the separator, and gluing the pieces back with it gives `s`
      up to the separators at its end; a string made of separators alone
      splits into nothing. */
  function Split(s: string, sep: char): (parts: seq<string>)
    ensures sep !in s ==> parts == [s]
    ensures forall i :: 0 <= i < |parts| ==> sep !in parts[i]
    ensures parts != [] ==> Join(parts, sep) <= s && forall i :: |Join(parts, sep)| <= i < |s| ==> s[i] == sep
    ensures parts == [] ==> s != [] && forall i :: 0 <= i < |s| ==> s[i] == sep
  {
    if sep !in s then [s]
    else
      SplitAllJoin(s, sep);
      SplitAllHasNoSeparator(s, sep);
      JoinDropTrailing(SplitAll(s, sep), sep);
      DropTrailingEmpty(SplitAll(s, sep))
  }

  /** Gluing one more piece on at the end. */
  lemma {:induction false} JoinSnoc(parts: seq<string>, x: string, sep: char)
    requires |parts| >= 1
    ensures Join(parts + [x], sep) == Join(parts, sep) + [sep] + x
  {
    if |parts| > 1 {
      assert (parts + [x])[1..] == parts[1..] + [x];
      JoinSnoc(parts[1..], x, sep);
    }
  }

  /** Dropping trailing empty pieces drops only separators from the end of the
      glued string. */
  lemma {:induction false} JoinDropTrailing(parts: seq<string>, sep: char)
    requires |parts| >= 1
    ensures var r, whole := DropTrailingEmpty(parts), Join(parts, sep);
      && (r != [] ==> Join(r, sep) <= whole && forall i :: |Join(r, sep)| <= i < |whole| ==> whole[i] == sep)
      && (r == [] ==> forall i :: 0 <= i < |whole| ==> whole[i] == sep)
  {
    var n := |parts|;
    if parts[n - 1] == [] && n > 1 {
      var q := parts[..n - 1];
      JoinDropTrailing(q, sep);
      assert q + [[]] == parts;
      JoinSnoc(q, [], sep);
      var r, whole, glued := DropTrailingEmpty(q), Join(parts, sep), Join(q, sep);
      assert whole == glued + [sep];
      assert DropTrailingEmpty(parts) == r;
      var from := if r != [] then |Join(r, sep)| else 0;
      forall i | from <= i < |whole|
        ensures whole[i] == sep
      {
        if i < |glued| {
          assert whole[i] == glued[i];
        }
      }
    }
  }

  lemma {:induction false} SplitAllJoin(s: string, sep: char)
    ensures Join(SplitAll(s, sep), sep) == s
  {
    if s != [] {
      var rest := SplitAll(s[1..], sep);
      SplitAllJoin(s[1..], sep);
      if s[0] == sep {
        assert SplitAll(s, sep) == [[]] + rest;
        assert ([[]] + rest)[1..] == rest;
      } else {
        var parts := [[s[0]] + rest[0]] + rest[1..];
        assert SplitAll(s, sep) == parts;
        if |rest| == 1 {
          assert Join(parts, sep) == [s[0]] + rest[0];
        } else {
          assert parts[1..] == rest[1..];
          assert Join(rest, sep) == rest[0] + [sep] + Join(rest[1..], sep);
        }
      }
    }
  }

  lemma {:induction false} SplitAllHasNoSeparator(s: string, sep: char)
    ensures forall p :: p in SplitAll(s, sep) ==> sep !in p
  {
    if s != [] {
      SplitAllHasNoSeparator(s[1..], sep);
    }
  }

  /** Splitting after one more separator yields one more, empty, piece. */
  lemma {:induction false} SplitAllAppendSeparator(s: string, sep: char)
    ensures SplitAll(s + [sep], sep) == SplitAll(s, sep) + [[]]
  {
    if s == [] {
      assert SplitAll([sep], sep) == [[]] + SplitAll([], sep);
    } else {
      assert (s + [sep])[1..] == s[1..] + [sep];
      SplitAllAppendSeparator(s[1..], sep);
    }
  }

  /** A separator-free piece followed by the separator splits off as one piece. */
  lemma {:induction false} SplitAllPiece(a: string, b: string, sep: char)
    requires sep !in a
    ensures SplitAll(a + [sep] + b, sep) == [a] + SplitAll(b, sep)
  {
    if a == [] {
      assert [] + [sep] + b == [sep] + b;
      assert ([sep] + b)[1..] == b;
    } else {
      assert (a + [sep] + b)[1..] == a[1..] + [sep] + b;
      SplitAllPiece(a[1..], b, sep);
      assert [a[0]] + a[1..] == a;
    }
  }

  /** Gluing separator-free pieces and splitting again gives the pieces back. */
  lemma {:induction false} JoinSplitAll(parts: seq<string>, sep: char)
    requires |parts| >= 1
    requires forall i :: 0 <= i < |parts| ==> sep !in parts[i]
    ensures SplitAll(Join(parts, sep), sep) == parts
  {
    if |parts| == 1 {
      SplitAllOfPlain(parts[0], sep);
    } else {
      JoinSplitAll(parts[1..], sep);
      SplitAllPiece(parts[0], Join(parts[1..], sep), sep);
    }
  }

  lemma {:induction false} SplitAllOfPlain(s: string, sep: char)
    requires sep !in s
    ensures SplitAll(s, sep) == [s]
  {
    if s != [] {
      SplitAllOfPlain(s[1..], sep);
      assert [s[0]] + s[1..] == s;
    }
  }

  /** `"a/".split("/")` equals `"a".split("/")`: a trailing separator changes nothing. */
  lemma SplitIgnoresTrailingSeparator(s: string, sep: char)
    requires s != []
    ensures Split(s + [sep], sep) == Split(s, sep)
  {
    SplitAllAppendSeparator(s, sep);
    var parts := SplitAll(s, sep);
    assert (parts + [[]])[..|parts|] == parts;
    if sep !in s {
      SplitAllOfPlain(s, sep);
    }
  }

  // ---------------------------------------------------------------------------
  // Arrays.toString(byte[])

  function DigitChar(d: nat): char
    requires d < 10
  {
    "0123456789"[d]
  }

  function DecimalNat(n: nat): (r: string)
    ensures |r| >= 1
    ensures forall i :: 0 <= i < |r| ==> '0' <= r[i] <= '9'
  {
    if n < 10 then [DigitChar(n)] else DecimalNat(n / 10) + [DigitChar(n % 10)]
  }

  /** `String.valueOf` of an integer: optional minus sign and decimal digits. */
  function Decimal(x: int): string
  {
    if x < 0 then "-" + DecimalNat(-x) else DecimalNat(x)
  }

  function JoinDecimals(bs: seq<JByte>): string
  {
    if |bs| == 0 then ""
    else if |bs| == 1 then Decimal(bs[0] as int)
    else Decimal(bs[0] as int) + ", " + JoinDecimals(bs[1..])
  }

  predicate IsBracket(c: char) { c == '[' || c == ']' }

  lemma {:induction false} JoinDecimalsHasNoBracket(bs: seq<JByte>)
    ensures forall i :: 0 <= i < |JoinDecimals(bs)| ==> !IsBracket(JoinDecimals(bs)[i])
    ensures bs != [] ==> JoinDecimals(bs) != []
  {
    if |bs| > 1 {
      JoinDecimalsHasNoBracket(bs[1..]);
    }
  }

  /** `Arrays.toString(bytes)`: `[b0, b1, ...]`, with `[]` for an empty array.
      The rendering is bracketed and has no bracket inside, so the renderings
      of several arrays written back to back stay self-delimiting. */
  function ArraysToString(bs: seq<JByte>): (r: string)
    ensures |r| >= 2 && r[0] == '[' && r[|r| - 1] == ']'
    ensures forall i :: 0 < i < |r| - 1 ==> !IsBracket(r[i])
    ensures bs == [] <==> r == "[]"
  {
    JoinDecimalsHasNoBracket(bs);
    var r := "[" + JoinDecimals(bs) + "]";
    assert forall i :: 0 < i < |r| - 1 ==> r[i] == JoinDecimals(bs)[i - 1];
    r
  }
}
