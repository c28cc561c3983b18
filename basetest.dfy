/** The helpers of the abstract JUnit base class `BaseTest`: the per-test
    metadata (provider name, key size, algorithm), the `groups` tag parser, the
    hexadecimal codec for byte arrays and the sequential byte generator. */
module BaseTest {
  import opened Wrappers
  import opened JavaLang

  // ---------------------------------------------------------------------------
  // Per-test metadata

  /** The mutable state every test instance inherits. A null provider name or
      algorithm is `None`; a key size of -1 means "not set". */
  class Fixture {
    var providerName: Option<string>
    var keysize: int32
    var algo: Option<string>

    constructor ()
      ensures providerName == None && keysize == -1 && algo == None
    {
      providerName := None;
      keysize := -1;
      algo := None;
    }

    method SetProviderName(name: Option<string>)
      modifies this
      ensures providerName == name
      ensures keysize == old(keysize) && algo == old(algo)
    {
      providerName := name;
    }

    /** Fails while no provider name is set, otherwise returns the last one set. */
    method GetProviderName() returns (r: Result<string, JavaException>)
      ensures r.Failure? <==> providerName == None
      ensures r.Failure? ==> r.error == RuntimeException("Provider name is null.")
      ensures r.Success? ==> Some(r.value) == providerName
    {
      if providerName == None {
        return Failure(RuntimeException("Provider name is null."));
      }
      return Success(providerName.value);
    }

    method SetAlgorithm(algorithm: Option<string>)
      modifies this
      ensures algo == algorithm
      ensures providerName == old(providerName) && keysize == old(keysize)
    {
      algo := algorithm;
    }

    /** Fails while no algorithm is set, otherwise returns the last one set. */
    method GetAlgorithm() returns (r: Result<string, JavaException>)
      ensures r.Failure? <==> algo == None
      ensures r.Failure? ==> r.error == RuntimeException("Algorithm name is null.")
      ensures r.Success? ==> Some(r.value) == algo
    {
      if algo == None {
        return Failure(RuntimeException("Algorithm name is null."));
      }
      return Success(algo.value);
    }

    method SetKeySize(keySize: int32)
      modifies this
      ensures keysize == keySize
      ensures providerName == old(providerName) && algo == old(algo)
    {
      keysize := keySize;
    }

    /** Fails while the key size holds the sentinel -1, otherwise returns it. */
    method GetKeySize() returns (r: Result<int32, JavaException>)
      ensures r.Failure? <==> keysize == -1
      ensures r.Failure? ==> r.error == RuntimeException("Key size is not correct.")
      ensures r.Success? ==> r.value == keysize && r.value != -1
    {
      if keysize == -1 {
        return Failure(RuntimeException("Key size is not correct."));
      }
      return Success(keysize);
    }
  }

  // ---------------------------------------------------------------------------
  // Tags from the `groups` property

  /** The tags named by the value of the `groups` property: none when it is
      absent or blank, otherwise its comma-separated fields, each trimmed. */
  function Tags(groups: Option<string>): seq<string>
  {
    if groups.Some? && Trim(groups.value) != [] then
      var fields := Split(groups.value, ',');
      seq(|fields|, i requires 0 <= i < |fields| => Trim(fields[i]))
    else
      []
  }

  /** `getTagsPropertyAsArray`, given the property's value (None when unset). */
  method GetTagsPropertyAsArray(groupsProperty: Option<string>) returns (tags: seq<string>)
    ensures tags == Tags(groupsProperty)
  {
    if groupsProperty.Some? && Trim(groupsProperty.value) != [] {
      var groups := Split(groupsProperty.value, ',');
      var trimmedGroups := new string[|groups|];
      for i := 0 to |groups|
        invariant forall j :: 0 <= j < i ==> trimmedGroups[j] == Trim(groups[j])
      {
        trimmedGroups[i] := Trim(groups[i]);
      }
      tags := trimmedGroups[..];
    } else {
      tags := [];
    }
  }

  /** Every tag is a clean name: no comma inside, no white space at either end,
      and there are no more tags than comma-separated fields. */
  lemma TagsAreClean(groups: Option<string>, i: nat)
    requires i < |Tags(groups)|
    ensures ',' !in Tags(groups)[i]
    ensures Tags(groups)[i] != [] ==>
              !IsTrimmable(Tags(groups)[i][0]) && !IsTrimmable(Tags(groups)[i][|Tags(groups)[i]| - 1])
    ensures |Tags(groups)| <= multiset(groups.value)[','] + 1
  {
    var fields := Split(groups.value, ',');
    var f := fields[i];
    assert Tags(groups)[i] == Trim(f);
    TrimSpec(f);
    SplitAllCount(groups.value, ',');
  }

  /** A property naming a single clean tag yields exactly that tag. */
  lemma SingleTag(g: string)
    requires ',' !in g && g != []
    requires !IsTrimmable(g[0]) && !IsTrimmable(g[|g| - 1])
    ensures Tags(Some(g)) == [g]
  {
    TrimNoOp(g);
    SplitAllNoSeparator(g, ',');
  }

  /** A property made of separators only (such as ",") yields no tags at all. */
  lemma OnlySeparators(g: string)
    requires g != [] && forall k :: 0 <= k < |g| ==> g[k] == ','
    ensures Tags(Some(g)) == []
  {
    TrimNoOp(g);
    var fields := SplitAll(g, ',');
    assert forall i :: 0 <= i < |fields| ==> fields[i] == "" by {
      forall i | 0 <= i < |fields|
        ensures fields[i] == ""
      {
        if fields[i] != "" {
          assert ',' != fields[i][0];
          assert fields[i][0] in Join(fields, ',') by {
            JoinContains(fields, ',', i);
          }
          JoinSplitAll(g, ',');
        }
      }
    }
    assert Split(g, ',') == [];
  }

  /** Every character of a field occurs in the joined string. */
  lemma {:induction false} JoinContains(fields: seq<string>, sep: char, i: nat)
    requires i < |fields| && fields[i] != []
    ensures fields[i][0] in Join(fields, sep)
  {
    if i > 0 {
      JoinContains(fields[1..], sep, i - 1);
      assert Join(fields, sep) == fields[0] + [sep] + Join(fields[1..], sep);
    } else if |fields| > 1 {
      assert Join(fields, sep) == fields[0] + ([sep] + Join(fields[1..], sep));
    }
  }

  // ---------------------------------------------------------------------------
  // Hexadecimal encoding

  /** The hex text of `bytes`: two lower-case digits per byte, in order. */
  function HexEncode(bytes: seq<JByte>): (s: string)
    ensures |s| == 2 * |bytes|
  {
    if bytes == [] then ""
    else HexEncode(bytes[..|bytes| - 1]) + Format02x(Unsigned(bytes[|bytes| - 1]))
  }

  /** Byte `i` is printed at positions 2i and 2i+1 as the high and low digit of
      its unsigned value. */
  lemma {:induction false} HexEncodeAt(bytes: seq<JByte>, i: nat)
    requires i < |bytes|
    ensures HexEncode(bytes)[2 * i] == HexDigit(Unsigned(bytes[i]) / 16)
    ensures HexEncode(bytes)[2 * i + 1] == HexDigit(Unsigned(bytes[i]) % 16)
  {
    var n := |bytes| - 1;
    if i < n {
      HexEncodeAt(bytes[..n], i);
    }
  }

  /** Every character of the encoding is a lower-case hex digit. */
  lemma HexEncodeIsLowerHex(bytes: seq<JByte>)
    ensures forall k :: 0 <= k < |HexEncode(bytes)| ==> IsLowerHexChar(HexEncode(bytes)[k])
  {
    forall k | 0 <= k < |HexEncode(bytes)|
      ensures IsLowerHexChar(HexEncode(bytes)[k])
    {
      HexEncodeAt(bytes, k / 2);
    }
  }

  /** `bytesToHex`; a null array is `None`. */
  method BytesToHex(input: Option<seq<JByte>>) returns (s: string)
    ensures input.None? ==> s == "<NULL>"
    ensures input.Some? ==> s == HexEncode(input.value)
  {
    if input.None? {
      return "<NULL>";
    }
    var bytes := input.value;
    var sb := "";
    for i := 0 to |bytes|
      invariant sb == HexEncode(bytes[..i])
    {
      assert bytes[..i + 1][..i] == bytes[..i];
      sb := sb + Format02x(Unsigned(bytes[i]));
    }
    assert bytes[..|bytes|] == bytes;
    s := sb;
  }

  // ---------------------------------------------------------------------------
  // Hexadecimal decoding

  /** The text `hexStringToByteArray` actually parses: the input trimmed, with
      every space removed. */
  function Compact(str: string): (s: string)
    ensures ' ' !in s
  {
    RemoveSpaces(Trim(str))
  }

  /** The parse of the `j`-th two-character chunk of `s`. */
  function Pair(s: string, j: nat): Result<int, JavaException>
    requires 2 * j + 1 < |s|
  {
    ParseHexChunk(s[2 * j], s[2 * j + 1])
  }

  /** The bytes of the chunks of `s`, failing at the first chunk that does not
      parse; a trailing odd character is not read. */
  function DecodePairs(s: string): (r: Result<seq<JByte>, JavaException>)
    ensures r.Success? ==> |r.value| == |s| / 2
  {
    if |s| < 2 then Success([])
    else
      var v :- ParseHexChunk(s[0], s[1]);
      var rest :- DecodePairs(s[2..]);
      Success([ToByte(v)] + rest)
  }

  /** What `hexStringToByteArray` returns or throws. */
  function HexDecode(str: string): Result<seq<JByte>, JavaException>
  {
    DecodePairs(Compact(str))
  }

  lemma PairShift(s: string, j: nat)
    requires |s| >= 2 && 2 * j + 1 < |s| - 2
    ensures Pair(s[2..], j) == Pair(s, j + 1)
  {
  }

  /** Decoding succeeds exactly when every chunk parses, and then byte j is the
      chunk's value cast to a byte. */
  lemma {:induction false} DecodePairsSpec(s: string)
    ensures DecodePairs(s).Success? <==> forall j :: 0 <= j < |s| / 2 ==> Pair(s, j).Success?
    ensures DecodePairs(s).Success? ==>
              forall j :: 0 <= j < |s| / 2 ==> DecodePairs(s).value[j] == ToByte(Pair(s, j).value)
  {
    if |s| >= 2 {
      var t := s[2..];
      DecodePairsSpec(t);
      forall j | 0 <= j < |t| / 2
        ensures Pair(t, j) == Pair(s, j + 1)
      {
        PairShift(s, j);
      }
      if !Pair(s, 0).Success? {
        assert DecodePairs(s).Failure?;
      } else if DecodePairs(s).Success? {
        var r := DecodePairs(s).value;
        assert r == [ToByte(Pair(s, 0).value)] + DecodePairs(t).value;
        forall j | 0 <= j < |s| / 2
          ensures Pair(s, j).Success? && r[j] == ToByte(Pair(s, j).value)
        {
          if j > 0 {
            assert r[j] == DecodePairs(t).value[j - 1];
          }
        }
      } else {
        assert DecodePairs(t).Failure?;
        var j :| 0 <= j < |t| / 2 && !Pair(t, j).Success?;
        assert !Pair(s, j + 1).Success?;
      }
    }
  }

  /** The error is the one of the first chunk that does not parse. */
  lemma {:induction false} DecodePairsFirstFailure(s: string, i: nat)
    requires 2 * i + 1 < |s|
    requires forall j :: 0 <= j < i ==> Pair(s, j).Success?
    requires Pair(s, i).Failure?
    ensures DecodePairs(s) == Failure(Pair(s, i).error)
  {
    if i > 0 {
      var t := s[2..];
      forall j | 0 <= j < i - 1
        ensures Pair(t, j).Success?
      {
        PairShift(s, j);
      }
      PairShift(s, i - 1);
      DecodePairsFirstFailure(t, i - 1);
      assert Pair(s, 0).Success?;
      assert DecodePairs(s) == DecodePairs(t).PropagateFailure();
    }
  }

  /** `hexStringToByteArray`. */
  method HexStringToByteArray(str: string) returns (r: Result<seq<JByte>, JavaException>)
    ensures r == HexDecode(str)
  {
    var s := RemoveSpaces(Trim(str));
    var b := new JByte[|s| / 2];
    for i := 0 to b.Length
      invariant forall j :: 0 <= j < i ==> Pair(s, j).Success? && b[j] == ToByte(Pair(s, j).value)
    {
      var index := i * 2;
      var v := ParseHexChunk(s[index], s[index + 1]);
      if v.Failure? {
        assert v == Pair(s, i);
        DecodePairsFirstFailure(s, i);
        return Failure(v.error);
      }
      b[i] := ToByte(v.value);
    }
    DecodePairsSpec(s);
    assert s == Compact(str);
    assert DecodePairs(s).value == b[..];
    r := Success(b[..]);
  }

  /** A string of hex digits is left alone by the trimming and space removal. */
  lemma CompactNoOp(s: string)
    requires forall k :: 0 <= k < |s| ==> IsLowerHexChar(s[k])
    ensures Compact(s) == s
  {
    if s != [] {
      assert IsLowerHexChar(s[0]) && IsLowerHexChar(s[|s| - 1]);
    }
    TrimNoOp(s);
    assert ' ' !in s;
    RemoveSpacesNoOp(s);
  }

  /** Chunk j of an encoding is byte j's unsigned value. */
  lemma EncodedPairs(bytes: seq<JByte>, j: nat)
    requires j < |bytes|
    ensures Pair(HexEncode(bytes), j) == Success(Unsigned(bytes[j]))
  {
    HexEncodeAt(bytes, j);
    ParseFormat02x(Unsigned(bytes[j]));
  }

  /** Decoding the encoding of any byte array gives the array back. */
  lemma RoundTrip(bytes: seq<JByte>)
    ensures HexDecode(HexEncode(bytes)) == Success(bytes)
  {
    var s := HexEncode(bytes);
    HexEncodeIsLowerHex(bytes);
    CompactNoOp(s);
    assert HexDecode(s) == DecodePairs(s);
    forall j | 0 <= j < |bytes|
      ensures Pair(s, j).Success? && ToByte(Pair(s, j).value) == bytes[j]
    {
      EncodedPairs(bytes, j);
      ByteCasts(bytes[j], 0);
    }
    DecodePairsSpec(s);
    var r := DecodePairs(s).value;
    assert r == bytes;
  }

  /** Sixteen times a high digit plus a low digit is a byte value whose
      quotient and remainder by 16 are those digits. */
  lemma DigitPair(d0: nat, d1: nat)
    requires d0 < 16 && d1 < 16
    ensures d0 * 16 + d1 < 256
    ensures (d0 * 16 + d1) / 16 == d0 && (d0 * 16 + d1) % 16 == d1
  {
  }

  /** A chunk of two lower-case digits, parsed, cast to a byte and printed
      again, comes back unchanged. */
  lemma LowerChunkRoundTrip(c0: char, c1: char)
    requires IsLowerHexChar(c0) && IsLowerHexChar(c1)
    ensures ParseHexChunk(c0, c1).Success?
    ensures var u := Unsigned(ToByte(ParseHexChunk(c0, c1).value));
              HexDigit(u / 16) == c0 && HexDigit(u % 16) == c1
  {
    var d0, d1 := DigitValue(c0).value, DigitValue(c1).value;
    HexDigitOfDigitValue(c0);
    HexDigitOfDigitValue(c1);
    DigitPair(d0, d1);
    var v := d0 * 16 + d1;
    ByteCasts(0, v);
    assert Unsigned(ToByte(v)) == v;
    assert ParseHexChunk(c0, c1).value == v;
  }

  /** Byte j, decoded from a chunk of two lower-case digits, is encoded back
      as that chunk. */
  lemma DecodedChunkEncodes(s: string, bytes: seq<JByte>, j: nat)
    requires j < |bytes| && 2 * j + 1 < |s|
    requires IsLowerHexChar(s[2 * j]) && IsLowerHexChar(s[2 * j + 1])
    requires bytes[j] == ToByte(Pair(s, j).value)
    ensures HexEncode(bytes)[2 * j] == s[2 * j] && HexEncode(bytes)[2 * j + 1] == s[2 * j + 1]
  {
    LowerChunkRoundTrip(s[2 * j], s[2 * j + 1]);
    HexEncodeAt(bytes, j);
  }

  /** Conversely, an even-length string of lower-case hex digits is the encoding
      of what it decodes to. */
  lemma EncodeDecode(s: string)
    requires |s| % 2 == 0
    requires forall k :: 0 <= k < |s| ==> IsLowerHexChar(s[k])
    ensures HexDecode(s).Success? && HexEncode(HexDecode(s).value) == s
  {
    CompactNoOp(s);
    assert HexDecode(s) == DecodePairs(s);
    forall j | 0 <= j < |s| / 2
      ensures Pair(s, j).Success?
    {
      LowerChunkRoundTrip(s[2 * j], s[2 * j + 1]);
    }
    DecodePairsSpec(s);
    var bytes := DecodePairs(s).value;
    forall k | 0 <= k < |s|
      ensures HexEncode(bytes)[k] == s[k]
    {
      var j := k / 2;
      DecodedChunkEncodes(s, bytes, j);
      assert k == 2 * j || k == 2 * j + 1;
    }
  }

  /** Upper-case digits decode like lower-case ones. */
  lemma DecodeIgnoresDigitCase(c0: char, c1: char)
    requires IsLowerHexChar(c0) && IsLowerHexChar(c1)
    ensures ParseHexChunk(ToUpperAscii(c0), ToUpperAscii(c1)) == ParseHexChunk(c0, c1)
  {
  }

  /** A trailing odd character is silently ignored. */
  lemma {:induction false} DecodeIgnoresOddTail(s: string, c: char)
    requires |s| % 2 == 0
    ensures DecodePairs(s + [c]) == DecodePairs(s)
  {
    if |s| >= 2 {
      assert (s + [c])[2..] == s[2..] + [c];
      DecodeIgnoresOddTail(s[2..], c);
    }
  }

  // ---------------------------------------------------------------------------
  // Sequential bytes

  /** `generateBytes`: byte i is `(byte) (i % 256)`; a negative length fails
      where Java's array allocation does. */
  method GenerateBytes(length: int32) returns (r: Result<seq<JByte>, JavaException>)
    ensures r.Failure? <==> length < 0
    ensures r.Failure? ==> r.error == NegativeArraySizeException(length as int)
    ensures r.Success? ==> |r.value| == length as int
    ensures r.Success? ==> forall i :: 0 <= i < |r.value| ==>
                             r.value[i] == ToByte(i % 256) && Unsigned(r.value[i]) == i % 256
  {
    if length < 0 {
      return Failure(NegativeArraySizeException(length as int));
    }
    var bytes := new JByte[length as int];
    for i := 0 to bytes.Length
      invariant forall j :: 0 <= j < i ==> bytes[j] == ToByte(j % 256)
    {
      bytes[i] := ToByte(i % 256);
    }
    forall i | 0 <= i < bytes.Length
      ensures Unsigned(bytes[i]) == i % 256
    {
      ByteCasts(0, i % 256);
    }
    r := Success(bytes[..]);
  }
}
