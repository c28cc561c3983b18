/** The small part of the Java platform that the test-support code relies on:
    32-bit ints, signed bytes and the casts between them, the String methods
    `trim`, `replaceAll(" +", "")`, `split(",")` and `equalsIgnoreCase`,
    `Integer.parseInt(s, 16)` on two-character chunks, and the exceptions
    those operations and the test code throw. */
module JavaLang {
  import opened Wrappers

  /** Java `int`. */
  newtype int32 = x: int | -0x8000_0000 <= x < 0x8000_0000

  /** Java `byte`: a signed 8-bit value. */
  type JByte = x: int | -128 <= x < 128

  /** The exceptions the modelled code can throw, with their messages. */
  datatype JavaException =
    | RuntimeException(message: string)
    | IllegalArgumentException(message: string)
    | NumberFormatException(input: string)
    | NegativeArraySizeException(length: int)

  // ---------------------------------------------------------------------------
  // Bytes

  /** The narrowing cast `(byte) v`: keeps the low 8 bits, read as two's complement. */
  function ToByte(v: int): (b: JByte)
    ensures (b - v) % 256 == 0
  {
    (v + 128) % 256 - 128
  }

  /** `b & 0xff`: the byte read as an unsigned value. */
  function Unsigned(b: JByte): (u: nat)
    ensures u < 256
    ensures (u - b) % 256 == 0
  {
    if b < 0 then b + 256 else b
  }

  /** The cast undoes the mask, and the mask of a cast is the value modulo 256. */
  lemma ByteCasts(b: JByte, v: int)
    ensures ToByte(Unsigned(b)) == b
    ensures Unsigned(ToByte(v)) == v % 256
  {
  }

  // ---------------------------------------------------------------------------
  // Characters and hexadecimal digits

  /** The lower-case hexadecimal digit of `d`, as `%x` prints it. */
  function HexDigit(d: nat): (c: char)
    requires d < 16
    ensures IsLowerHexChar(c)
  {
    if d < 10 then '0' + d as char else 'a' + (d - 10) as char
  }

  predicate IsLowerHexChar(c: char) {
    '0' <= c <= '9' || 'a' <= c <= 'f'
  }

  /** `Character.digit(c, 16)` restricted to ASCII: the value of a hexadecimal
      digit of either case, or None for any other character. */
  function DigitValue(c: char): (d: Option<nat>)
    ensures d.Some? ==> d.value < 16
    ensures d.Some? <==> ('0' <= c <= '9' || 'a' <= c <= 'f' || 'A' <= c <= 'F')
  {
    if '0' <= c <= '9' then Some(c as int - '0' as int)
    else if 'a' <= c <= 'f' then Some(c as int - 'a' as int + 10)
    else if 'A' <= c <= 'F' then Some(c as int - 'A' as int + 10)
    else None
  }

  /** Reading back a printed digit gives the digit. */
  lemma {:induction false} DigitValueOfHexDigit(d: nat)
    requires d < 16
    ensures DigitValue(HexDigit(d)) == Some(d)
  {
    if d < 10 {
      assert HexDigit(d) as int == '0' as int + d;
    } else {
      assert HexDigit(d) as int == 'a' as int + d - 10;
    }
  }

  /** A lower-case digit is the printed form of its own value. */
  lemma HexDigitOfDigitValue(c: char)
    requires IsLowerHexChar(c)
    ensures DigitValue(c).Some? && HexDigit(DigitValue(c).value) == c
  {
  }

  /** `String.format("%02x", v)` for an int in [0, 256): two lower-case digits, zero-padded. */
  function Format02x(v: nat): (s: string)
    requires v < 256
    ensures |s| == 2 && IsLowerHexChar(s[0]) && IsLowerHexChar(s[1])
    ensures DigitValue(s[0]) == Some(v / 16) && DigitValue(s[1]) == Some(v % 16)
  {
    DigitValueOfHexDigit(v / 16);
    DigitValueOfHexDigit(v % 16);
    [HexDigit(v / 16), HexDigit(v % 16)]
  }

  /** `Integer.parseInt(chunk, 16)` where `chunk` is the two characters `c0 c1`.
      A leading '-' or '+' is a sign, any other first character below '0' is an
      error, and every remaining character must be a hexadecimal digit. */
  function ParseHexChunk(c0: char, c1: char): (r: Result<int, JavaException>)
    ensures r.Failure? ==> r.error == NumberFormatException([c0, c1])
    ensures r.Success? <==> DigitValue(c1).Some? && (DigitValue(c0).Some? || c0 == '-' || c0 == '+')
    ensures r.Success? ==> -16 < r.value < 256
    ensures DigitValue(c0).Some? && DigitValue(c1).Some? ==>
              r == Success(DigitValue(c0).value * 16 + DigitValue(c1).value)
    ensures c0 == '-' && DigitValue(c1).Some? ==> r == Success(-(DigitValue(c1).value as int))
    ensures c0 == '+' && DigitValue(c1).Some? ==> r == Success(DigitValue(c1).value)
  {
    var bad := Failure(NumberFormatException([c0, c1]));
    if c0 < '0' then
      if (c0 == '-' || c0 == '+') && DigitValue(c1).Some? then
        Success(if c0 == '-' then -(DigitValue(c1).value as int) else DigitValue(c1).value)
      else
        bad
    else if DigitValue(c0).Some? && DigitValue(c1).Some? then
      Success(DigitValue(c0).value * 16 + DigitValue(c1).value)
    else
      bad
  }

  /** Parsing a chunk that `%02x` printed gives back the printed value. */
  lemma ParseFormat02x(v: nat)
    requires v < 256
    ensures ParseHexChunk(Format02x(v)[0], Format02x(v)[1]) == Success(v)
  {
  }

  // ---------------------------------------------------------------------------
  // Strings

  /** Java `trim` treats every character up to U+0020 as white space. */
  predicate IsTrimmable(c: char) {
    c <= ' '
  }

  /** Removes the leading characters `trim` strips. */
  function TrimStart(s: string): string
  {
    if s != [] && IsTrimmable(s[0]) then TrimStart(s[1..]) else s
  }

  /** `TrimStart` keeps a suffix, drops only white space, and leaves the result
      starting with a non-white character. */
  lemma {:induction false} TrimStartSpec(s: string)
    ensures |TrimStart(s)| <= |s| && TrimStart(s) == s[|s| - |TrimStart(s)|..]
    ensures forall k :: 0 <= k < |s| - |TrimStart(s)| ==> IsTrimmable(s[k])
    ensures TrimStart(s) != [] ==> !IsTrimmable(TrimStart(s)[0])
  {
    if s != [] && IsTrimmable(s[0]) {
      var t := s[1..];
      var r := TrimStart(t);
      assert TrimStart(s) == r;
      TrimStartSpec(t);
      assert r == s[|s| - |r|..] by {
        assert t[|t| - |r|..] == s[|s| - |r|..];
      }
      forall k | 0 <= k < |s| - |r|
        ensures IsTrimmable(s[k])
      {
        if k > 0 {
          assert s[k] == t[k - 1];
        }
      }
    }
  }

  /** Removes the trailing characters `trim` strips. */
  function TrimEnd(s: string): string
  {
    if s != [] && IsTrimmable(s[|s| - 1]) then TrimEnd(s[..|s| - 1]) else s
  }

  /** `TrimEnd` keeps a prefix, drops only white space, and leaves the result
      ending with a non-white character. */
  lemma {:induction false} TrimEndSpec(s: string)
    ensures |TrimEnd(s)| <= |s| && TrimEnd(s) == s[..|TrimEnd(s)|]
    ensures forall k :: |TrimEnd(s)| <= k < |s| ==> IsTrimmable(s[k])
    ensures TrimEnd(s) != [] ==> !IsTrimmable(TrimEnd(s)[|TrimEnd(s)| - 1])
  {
    if s != [] && IsTrimmable(s[|s| - 1]) {
      var t := s[..|s| - 1];
      var r := TrimEnd(t);
      assert TrimEnd(s) == r;
      TrimEndSpec(t);
      assert r == s[..|r|] by {
        assert t[..|r|] == s[..|r|];
      }
      forall k | |r| <= k < |s|
        ensures IsTrimmable(s[k])
      {
        if k < |s| - 1 {
          assert s[k] == t[k];
        }
      }
    }
  }

  /** `String.trim`. */
  function Trim(s: string): (r: string)
    ensures |r| <= |s|
    ensures r != [] ==> !IsTrimmable(r[0]) && !IsTrimmable(r[|r| - 1])
  {
    TrimStartSpec(s);
    TrimEndSpec(TrimStart(s));
    TrimEnd(TrimStart(s))
  }

  /** `trim` keeps a contiguous middle part of the string and drops only white
      space around it. */
  lemma TrimSpec(s: string)
    ensures var lo := |s| - |TrimStart(s)|;
              0 <= lo && lo + |Trim(s)| <= |s| && Trim(s) == s[lo..lo + |Trim(s)|]
              && (forall k :: 0 <= k < lo ==> IsTrimmable(s[k]))
              && (forall k :: lo + |Trim(s)| <= k < |s| ==> IsTrimmable(s[k]))
    ensures Trim(s) != [] ==> !IsTrimmable(Trim(s)[0]) && !IsTrimmable(Trim(s)[|Trim(s)| - 1])
  {
    var t := TrimStart(s);
    var r := TrimEnd(t);
    var lo := |s| - |t|;
    TrimStartSpec(s);
    TrimEndSpec(t);
    assert t == s[lo..];
    assert r == t[..|r|];
    assert r == s[lo..lo + |r|];
    forall k | lo + |r| <= k < |s|
      ensures IsTrimmable(s[k])
    {
      assert s[k] == t[k - lo];
    }
  }

  /** `trim` yields the empty string exactly when every character is white space. */
  lemma TrimEmpty(s: string)
    ensures Trim(s) == [] <==> forall k :: 0 <= k < |s| ==> IsTrimmable(s[k])
  {
    var t := TrimStart(s);
    var lo := |s| - |t|;
    TrimStartSpec(s);
    TrimEndSpec(t);
    if t != [] {
      assert !IsTrimmable(t[0]) && t[0] == s[lo];
    }
  }

  /** A string with no white space at either end is its own trim. */
  lemma TrimNoOp(s: string)
    requires s != [] ==> !IsTrimmable(s[0]) && !IsTrimmable(s[|s| - 1])
    ensures Trim(s) == s
  {
  }

  /** `replaceAll(" +", "")`: every run of spaces, hence every space, removed. */
  function RemoveSpaces(s: string): (r: string)
    ensures |r| <= |s|
    ensures ' ' !in r
    ensures forall c :: c != ' ' ==> multiset(r)[c] == multiset(s)[c]
  {
    if s == [] then []
    else
      assert s == [s[0]] + s[1..];
      (if s[0] == ' ' then [] else [s[0]]) + RemoveSpaces(s[1..])
  }

  /** Removing spaces from a string without spaces changes nothing. */
  lemma {:induction false} RemoveSpacesNoOp(s: string)
    requires ' ' !in s
    ensures RemoveSpaces(s) == s
  {
    if s != [] {
      RemoveSpacesNoOp(s[1..]);
    }
  }

  /** Removing spaces works character by character: a single character is
      dropped exactly when it is a space ... */
  lemma RemoveSpacesChar(c: char)
    ensures RemoveSpaces([c]) == if c == ' ' then [] else [c]
  {
    assert [c][1..] == [];
  }

  /** ... and the result for a concatenation is the concatenation of the
      results, so the characters kept stay in their order. */
  lemma {:induction false} RemoveSpacesAppend(a: string, b: string)
    ensures RemoveSpaces(a + b) == RemoveSpaces(a) + RemoveSpaces(b)
  {
    if a != [] {
      assert (a + b)[0] == a[0];
      assert (a + b)[1..] == a[1..] + b;
      RemoveSpacesAppend(a[1..], b);
    } else {
      assert a + b == b;
    }
  }

  /** ASCII upper-casing, the part of `Character.toUpperCase` the model uses. */
  function ToUpperAscii(c: char): (u: char)
    ensures 'a' <= c <= 'z' ==> u as int == c as int - 32
    ensures !('a' <= c <= 'z') ==> u == c
  {
    if 'a' <= c <= 'z' then (c as int - 32) as char else c
  }

  /** A whole string upper-cased, letter by letter. */
  function UpperAscii(s: string): string
  {
    seq(|s|, i requires 0 <= i < |s| => ToUpperAscii(s[i]))
  }

  /** `String.equalsIgnoreCase` with ASCII case folding: the characters are
      compared pairwise, first as they are and then upper-cased. Equivalently,
      the two strings agree once both are upper-cased. */
  predicate EqualsIgnoreCase(a: string, b: string): (eq: bool)
    ensures eq <==> UpperAscii(a) == UpperAscii(b)
  {
    var r := |a| == |b| && forall i :: 0 <= i < |a| ==> a[i] == b[i] || ToUpperAscii(a[i]) == ToUpperAscii(b[i]);
    assert r ==> UpperAscii(a) == UpperAscii(b);
    assert UpperAscii(a) == UpperAscii(b) ==> r by {
      if UpperAscii(a) == UpperAscii(b) {
        assert |a| == |UpperAscii(a)|;
        forall i | 0 <= i < |a|
          ensures ToUpperAscii(a[i]) == ToUpperAscii(b[i])
        {
          assert UpperAscii(a)[i] == UpperAscii(b)[i];
        }
      }
    }
    r
  }

  // ---------------------------------------------------------------------------
  // String.split with a one-character separator

  /** All fields of `s` separated by `sep`, empty ones included. */
  function SplitAll(s: string, sep: char): (r: seq<string>)
    ensures |r| >= 1
    ensures forall i :: 0 <= i < |r| ==> sep !in r[i]
  {
    if s == [] then [""]
    else
      var rest := SplitAll(s[1..], sep);
      if s[0] == sep then [""] + rest else [[s[0]] + rest[0]] + rest[1..]
  }

  /** Fields joined back together with the separator. */
  function Join(fields: seq<string>, sep: char): string
  {
    if fields == [] then ""
    else if |fields| == 1 then fields[0]
    else fields[0] + [sep] + Join(fields[1..], sep)
  }

  /** Splitting loses nothing: joining the fields rebuilds the input. */
  lemma {:induction false} JoinSplitAll(s: string, sep: char)
    ensures Join(SplitAll(s, sep), sep) == s
  {
    if s != [] {
      var rest := SplitAll(s[1..], sep);
      JoinSplitAll(s[1..], sep);
      if s[0] != sep {
        if |rest| == 1 {
          assert SplitAll(s, sep) == [[s[0]] + rest[0]];
        } else {
          assert SplitAll(s, sep)[1..] == rest[1..];
          assert Join(rest, sep) == rest[0] + [sep] + Join(rest[1..], sep);
          assert [s[0]] + s[1..] == s;
        }
      }
    }
  }

  /** There is one field more than there are separators. */
  lemma {:induction false} SplitAllCount(s: string, sep: char)
    ensures |SplitAll(s, sep)| == multiset(s)[sep] + 1
  {
    if s != [] {
      SplitAllCount(s[1..], sep);
      assert s == [s[0]] + s[1..];
    }
  }

  /** A string without the separator is a single field. */
  lemma SplitAllNoSeparator(s: string, sep: char)
    requires sep !in s
    ensures SplitAll(s, sep) == [s]
  {
    SplitAllCount(s, sep);
    JoinSplitAll(s, sep);
  }

  /** Drops the empty strings at the end of a list, as `split` does. */
  function DropTrailingEmpty(fields: seq<string>): (r: seq<string>)
    ensures |r| <= |fields| && r == fields[..|r|]
    ensures forall i :: |r| <= i < |fields| ==> fields[i] == ""
    ensures r != [] ==> r[|r| - 1] != ""
  {
    if fields != [] && fields[|fields| - 1] == "" then DropTrailingEmpty(fields[..|fields| - 1])
    else fields
  }

  /** `s.split(String.valueOf(sep))`: a string without the separator is its own
      single field (the empty string included); otherwise the fields with
      trailing empty ones removed (so a string of separators only splits into
      nothing). */
  function Split(s: string, sep: char): (r: seq<string>)
    ensures forall i :: 0 <= i < |r| ==> sep !in r[i]
    ensures |r| <= multiset(s)[sep] + 1
    ensures sep in s ==> |r| <= |SplitAll(s, sep)| && r == SplitAll(s, sep)[..|r|]
  {
    SplitAllCount(s, sep);
    if sep !in s then [s] else DropTrailingEmpty(SplitAll(s, sep))
  }

  /** Splitting the empty string gives one empty field, as in Java. */
  lemma SplitEmpty(sep: char)
    ensures Split("", sep) == [""]
  {
  }
}
