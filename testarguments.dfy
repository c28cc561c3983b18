/** `TestArguments`: the parameter lists JUnit feeds to parameterized tests,
    built from the OpenJCEPlus providers enabled by the `groups` tags. The
    value of the `groups` property is a parameter (None when it is unset). */
module TestArguments {
  import opened Wrappers
  import opened JavaLang
  import opened TestProviders
  import BaseTest

  // ---------------------------------------------------------------------------
  // Enabled providers

  /** The providers used when no tag is given, in this order. */
  const DefaultProviders: seq<TestProvider> := [OpenJCEPlus, OpenJCEPlusFIPS]

  /** Whether `tag` names provider `p`, ignoring case. */
  predicate Names(tag: string, p: TestProvider) {
    EqualsIgnoreCase(ProviderName(p), tag)
  }

  /** What one tag contributes: OpenJCEPlus if it names it, otherwise
      OpenJCEPlusFIPS if it names that one, otherwise nothing. */
  function TagProviders(tag: string): seq<TestProvider>
  {
    if Names(tag, OpenJCEPlus) then [OpenJCEPlus]
    else if Names(tag, OpenJCEPlusFIPS) then [OpenJCEPlusFIPS]
    else []
  }

  /** The contributions of the tags, in tag order. */
  function MatchTags(tags: seq<string>): seq<TestProvider>
  {
    if tags == [] then []
    else MatchTags(tags[..|tags| - 1]) + TagProviders(tags[|tags| - 1])
  }

  /** The providers `getEnabledProviders` returns for a list of tags. */
  function EnabledProviders(tags: seq<string>): seq<TestProvider>
  {
    if |tags| == 0 then DefaultProviders else MatchTags(tags)
  }

  /** `getEnabledProviders`, reading the tags from the `groups` property. */
  method GetEnabledProviders(groups: Option<string>) returns (enabledProviders: seq<TestProvider>)
    ensures enabledProviders == EnabledProviders(BaseTest.Tags(groups))
  {
    var groupPropertyTags := BaseTest.GetTagsPropertyAsArray(groups);
    enabledProviders := [];
    if |groupPropertyTags| == 0 {
      enabledProviders := enabledProviders + [OpenJCEPlus];
      enabledProviders := enabledProviders + [OpenJCEPlusFIPS];
    } else {
      for i := 0 to |groupPropertyTags|
        invariant enabledProviders == MatchTags(groupPropertyTags[..i])
      {
        var tag := groupPropertyTags[i];
        MatchTagsExtend(groupPropertyTags, i);
        if Names(tag, OpenJCEPlus) {
          enabledProviders := enabledProviders + [OpenJCEPlus];
        } else if Names(tag, OpenJCEPlusFIPS) {
          enabledProviders := enabledProviders + [OpenJCEPlusFIPS];
        }
      }
      assert groupPropertyTags[..|groupPropertyTags|] == groupPropertyTags;
    }
  }

  /** One more tag extends the providers by that tag's contribution. */
  lemma MatchTagsExtend(tags: seq<string>, i: nat)
    requires i < |tags|
    ensures MatchTags(tags[..i + 1]) == MatchTags(tags[..i]) + TagProviders(tags[i])
  {
    assert tags[..i + 1][..i] == tags[..i];
  }

  /** The tags are processed one after another: the providers of a list of
      tags followed by more tags are those of the first list followed by those
      of the rest. */
  lemma {:induction false} MatchTagsAppend(a: seq<string>, b: seq<string>)
    ensures MatchTags(a + b) == MatchTags(a) + MatchTags(b)
  {
    if b != [] {
      var n := |b| - 1;
      assert (a + b)[..|a + b| - 1] == a + b[..n];
      MatchTagsAppend(a, b[..n]);
    } else {
      assert a + b == a;
    }
  }

  /** Each tag contributes at most one provider, so there are never more
      providers than tags. */
  lemma {:induction false} MatchTagsLength(tags: seq<string>)
    ensures |MatchTags(tags)| <= |tags|
  {
    if tags != [] {
      MatchTagsLength(tags[..|tags| - 1]);
    }
  }

  /** A tag list only ever enables the two OpenJCEPlus providers. */
  lemma {:induction false} MatchTagsAreJCEPlus(tags: seq<string>)
    ensures forall p :: p in MatchTags(tags) ==> p == OpenJCEPlus || p == OpenJCEPlusFIPS
  {
    if tags != [] {
      MatchTagsAreJCEPlus(tags[..|tags| - 1]);
    }
  }

  /** Only the two OpenJCEPlus providers are ever enabled. */
  lemma EnabledAreJCEPlus(tags: seq<string>)
    ensures forall p :: p in EnabledProviders(tags) ==> p == OpenJCEPlus || p == OpenJCEPlusFIPS
  {
    MatchTagsAreJCEPlus(tags);
  }

  /** A provider is enabled by a non-empty tag list exactly when some tag names it. */
  lemma {:induction false} MatchTagsMembership(tags: seq<string>, p: TestProvider)
    requires p == OpenJCEPlus || p == OpenJCEPlusFIPS
    ensures p in MatchTags(tags) <==> exists i :: 0 <= i < |tags| && Names(tags[i], p)
  {
    if tags != [] {
      var n := |tags| - 1;
      MatchTagsMembership(tags[..n], p);
      JCEPlusNamesDistinct(tags[n]);
      if p in MatchTags(tags) && p !in MatchTags(tags[..n]) {
        assert Names(tags[n], p);
      }
      if exists i :: 0 <= i < |tags| && Names(tags[i], p) {
        var i :| 0 <= i < |tags| && Names(tags[i], p);
        if i < n {
          assert tags[..n][i] == tags[i];
        }
      }
    }
  }

  /** No provider is enabled exactly when tags were given and none of them
      names either OpenJCEPlus provider. */
  lemma NoneEnabled(tags: seq<string>)
    ensures EnabledProviders(tags) == [] <==>
              tags != [] && forall i :: 0 <= i < |tags| ==> !Names(tags[i], OpenJCEPlus) && !Names(tags[i], OpenJCEPlusFIPS)
  {
    if tags != [] {
      MatchTagsMembership(tags, OpenJCEPlus);
      MatchTagsMembership(tags, OpenJCEPlusFIPS);
      EnabledAreJCEPlus(tags);
      if MatchTags(tags) != [] {
        assert MatchTags(tags)[0] in MatchTags(tags);
      }
    }
  }

  // ---------------------------------------------------------------------------
  // Key size × provider arguments

  /** The arguments of one provider: each key size with it, in key-size order. */
  function Row(p: TestProvider, keySizes: seq<int32>): (r: seq<(int32, TestProvider)>)
  {
    seq(|keySizes|, k requires 0 <= k < |keySizes| => (keySizes[k], p))
  }

  /** The arguments of all providers, provider by provider. */
  function Cross(providers: seq<TestProvider>, keySizes: seq<int32>): seq<(int32, TestProvider)>
  {
    if providers == [] then []
    else Cross(providers[..|providers| - 1], keySizes) + Row(providers[|providers| - 1], keySizes)
  }

  /** There is one argument per (provider, key size) pair. */
  lemma {:induction false} CrossLength(providers: seq<TestProvider>, keySizes: seq<int32>)
    ensures |Cross(providers, keySizes)| == |providers| * |keySizes|
  {
    if providers != [] {
      var n, m := |providers| - 1, |keySizes|;
      CrossLength(providers[..n], keySizes);
      assert |Row(providers[n], keySizes)| == m;
      assert n * m + m == (n + 1) * m;
    }
  }

  /** The order is provider-major: argument p * |keySizes| + k pairs key size k
      with provider p. */
  lemma {:induction false} CrossAt(providers: seq<TestProvider>, keySizes: seq<int32>, p: nat, k: nat)
    requires p < |providers| && k < |keySizes|
    ensures p * |keySizes| + k < |Cross(providers, keySizes)|
    ensures Cross(providers, keySizes)[p * |keySizes| + k] == (keySizes[k], providers[p])
  {
    var n, m := |providers| - 1, |keySizes|;
    var front := providers[..n];
    CrossLength(front, keySizes);
    if p < n {
      CrossAt(front, keySizes, p, k);
    } else {
      assert p * m == |Cross(front, keySizes)|;
    }
  }

  predicate Distinct<T(==)>(s: seq<T>) {
    forall i, j :: 0 <= i < j < |s| ==> s[i] != s[j]
  }

  /** Scaling by a natural number keeps the order. */
  lemma {:induction false} MulMonotone(a: nat, b: nat, m: nat)
    requires a <= b
    ensures a * m <= b * m
  {
    if a < b {
      MulMonotone(a, b - 1, m);
      assert (b - 1) * m + m == b * m;
    }
  }

  /** An index below n * m splits into a row p below n and a column k below m. */
  lemma SplitIndex(i: nat, n: nat, m: nat) returns (p: nat, k: nat)
    requires i < n * m
    ensures m > 0 && p == i / m && k == i % m
    ensures p < n && k < m && i == p * m + k
  {
    p, k := i / m, i % m;
    if p >= n {
      MulMonotone(n, p, m);
    }
  }

  /** Every index of the product is some (provider, key size) position. */
  lemma CrossIndex(providers: seq<TestProvider>, keySizes: seq<int32>, i: nat)
    requires i < |Cross(providers, keySizes)|
    ensures 0 < |keySizes| && i / |keySizes| < |providers|
    ensures Cross(providers, keySizes)[i] == (keySizes[i % |keySizes|], providers[i / |keySizes|])
  {
    CrossLength(providers, keySizes);
    var p, k := SplitIndex(i, |providers|, |keySizes|);
    CrossAt(providers, keySizes, p, k);
  }

  /** With distinct providers and distinct key sizes, no argument repeats. */
  lemma CrossDistinct(providers: seq<TestProvider>, keySizes: seq<int32>)
    requires Distinct(providers) && Distinct(keySizes)
    ensures Distinct(Cross(providers, keySizes))
  {
    var c := Cross(providers, keySizes);
    forall i, j | 0 <= i < j < |c|
      ensures c[i] != c[j]
    {
      CrossIndex(providers, keySizes, i);
      CrossIndex(providers, keySizes, j);
    }
  }

  /** What `keySizesAndJCEPlusProviders` returns or throws for the enabled
      providers: every combination, unless there is none. */
  function KeySizeArguments(providers: seq<TestProvider>, keySizes: seq<int32>)
    : Result<seq<(int32, TestProvider)>, JavaException>
  {
    var arguments := Cross(providers, keySizes);
    if arguments == [] then Failure(IllegalArgumentException("No test arguments, unlikey this is what was asked for."))
    else Success(arguments)
  }

  /** The call fails exactly when no provider is enabled or no key size is given. */
  lemma KeySizeArgumentsFail(providers: seq<TestProvider>, keySizes: seq<int32>)
    ensures KeySizeArguments(providers, keySizes).Failure? <==> providers == [] || keySizes == []
  {
    CrossLength(providers, keySizes);
  }

  /** One more key size extends a provider's row by one argument. */
  lemma RowExtend(p: TestProvider, keySizes: seq<int32>, j: nat)
    requires j < |keySizes|
    ensures Row(p, keySizes[..j + 1]) == Row(p, keySizes[..j]) + [(keySizes[j], p)]
  {
  }

  /** One more provider extends the product by that provider's row. */
  lemma CrossExtend(providers: seq<TestProvider>, keySizes: seq<int32>, i: nat)
    requires i < |providers|
    ensures Cross(providers[..i + 1], keySizes) == Cross(providers[..i], keySizes) + Row(providers[i], keySizes)
  {
    assert providers[..i + 1][..i] == providers[..i];
  }

  /** `keySizesAndJCEPlusProviders`. */
  method KeySizesAndJCEPlusProviders(groups: Option<string>, keySizes: seq<int32>)
    returns (r: Result<seq<(int32, TestProvider)>, JavaException>)
    ensures r == KeySizeArguments(EnabledProviders(BaseTest.Tags(groups)), keySizes)
  {
    var activeProviders := GetEnabledProviders(groups);
    var arguments: seq<(int32, TestProvider)> := [];
    for i := 0 to |activeProviders|
      invariant arguments == Cross(activeProviders[..i], keySizes)
    {
      var provider := activeProviders[i];
      for j := 0 to |keySizes|
        invariant arguments == Cross(activeProviders[..i], keySizes) + Row(provider, keySizes[..j])
      {
        RowExtend(provider, keySizes, j);
        arguments := arguments + [(keySizes[j], provider)];
      }
      assert keySizes[..|keySizes|] == keySizes;
      CrossExtend(activeProviders, keySizes, i);
    }
    assert activeProviders[..|activeProviders|] == activeProviders;
    if arguments == [] {
      return Failure(IllegalArgumentException("No test arguments, unlikey this is what was asked for."));
    }
    return Success(arguments);
  }

  /** `testAliasesJCEPlusProviders`: the enabled providers, unless there are none. */
  method TestAliasesJCEPlusProviders(groups: Option<string>) returns (r: Result<seq<TestProvider>, JavaException>)
    ensures r.Failure? <==> EnabledProviders(BaseTest.Tags(groups)) == []
    ensures r.Failure? ==> r.error == IllegalArgumentException("No test providers found, unlikely this is what was asked for.")
    ensures r.Success? ==> r.value == EnabledProviders(BaseTest.Tags(groups))
  {
    var testAliasesActiveProviders := GetEnabledProviders(groups);
    if testAliasesActiveProviders == [] {
      return Failure(IllegalArgumentException("No test providers found, unlikely this is what was asked for."));
    }
    return Success(testAliasesActiveProviders);
  }

  /** `aesKeySizesAndJCEPlusProviders`: AES key sizes 128, 192 and 256. */
  method AesKeySizesAndJCEPlusProviders(groups: Option<string>)
    returns (r: Result<seq<(int32, TestProvider)>, JavaException>)
    ensures r == KeySizeArguments(EnabledProviders(BaseTest.Tags(groups)), [128, 192, 256])
  {
    var aesKeySizesOpenJcePlus := [128, 192, 256];
    r := KeySizesAndJCEPlusProviders(groups, aesKeySizesOpenJcePlus);
  }

  /** `aesgcmKeySizesAndJCEPlusProviders`: AES-GCM key sizes 128, 192 and 256. */
  method AesgcmKeySizesAndJCEPlusProviders(groups: Option<string>)
    returns (r: Result<seq<(int32, TestProvider)>, JavaException>)
    ensures r == KeySizeArguments(EnabledProviders(BaseTest.Tags(groups)), [128, 192, 256])
  {
    var aesgcmKeySizesOpenJcePlus := [128, 192, 256];
    r := KeySizesAndJCEPlusProviders(groups, aesgcmKeySizesOpenJcePlus);
  }

  /** The row of a provider for three key sizes, written out. */
  lemma RowOfThree(p: TestProvider, keySizes: seq<int32>)
    requires |keySizes| == 3
    ensures Row(p, keySizes) == [(keySizes[0], p), (keySizes[1], p), (keySizes[2], p)]
  {
  }

  /** Without a `groups` property the AES variants produce six arguments: the
      three key sizes with OpenJCEPlus, then the three with OpenJCEPlusFIPS. */
  lemma DefaultAesArguments()
    ensures KeySizeArguments(EnabledProviders(BaseTest.Tags(None)), [128, 192, 256])
            == Success([(128, OpenJCEPlus), (192, OpenJCEPlus), (256, OpenJCEPlus),
                        (128, OpenJCEPlusFIPS), (192, OpenJCEPlusFIPS), (256, OpenJCEPlusFIPS)])
  {
    var ks: seq<int32> := [128, 192, 256];
    assert BaseTest.Tags(None) == [];
    RowOfThree(OpenJCEPlus, ks);
    RowOfThree(OpenJCEPlusFIPS, ks);
    assert DefaultProviders[..1] == [OpenJCEPlus] && [OpenJCEPlus][..0] == [];
    assert Cross([OpenJCEPlus], ks) == Row(OpenJCEPlus, ks);
    var expected: seq<(int32, TestProvider)> :=
      [(128, OpenJCEPlus), (192, OpenJCEPlus), (256, OpenJCEPlus),
       (128, OpenJCEPlusFIPS), (192, OpenJCEPlusFIPS), (256, OpenJCEPlusFIPS)];
    assert Cross(DefaultProviders, ks) == Row(OpenJCEPlus, ks) + Row(OpenJCEPlusFIPS, ks) == expected;
  }

  /** A tag naming OpenJCEPlus, in any letter case, is a clean single tag. */
  lemma OpenJCEPlusTagIsClean(g: string)
    requires Names(g, OpenJCEPlus)
    ensures ',' !in g && g != []
    ensures !IsTrimmable(g[0]) && !IsTrimmable(g[|g| - 1])
  {
    var name := ProviderName(OpenJCEPlus);
    forall k | 0 <= k < |g|
      ensures g[k] != ',' && !IsTrimmable(g[k])
    {
      assert name[k] == g[k] || ToUpperAscii(name[k]) == ToUpperAscii(g[k]);
      assert 'A' <= ToUpperAscii(name[k]) <= 'Z';
    }
  }

  /** `groups=OpenJCEPlus`, in any letter case, enables that provider alone. */
  lemma SingleProviderTag(g: string)
    requires Names(g, OpenJCEPlus)
    ensures EnabledProviders(BaseTest.Tags(Some(g))) == [OpenJCEPlus]
  {
    OpenJCEPlusTagIsClean(g);
    BaseTest.SingleTag(g);
    assert [g][..0] == [];
    assert MatchTags([g]) == MatchTags([]) + TagProviders(g);
  }

  /** So with `groups=OpenJCEPlus` every argument uses OpenJCEPlus. */
  lemma SingleProviderGroup(g: string, keySizes: seq<int32>, i: nat)
    requires Names(g, OpenJCEPlus)
    requires i < |Cross(EnabledProviders(BaseTest.Tags(Some(g))), keySizes)|
    ensures Cross(EnabledProviders(BaseTest.Tags(Some(g))), keySizes)[i].1 == OpenJCEPlus
  {
    SingleProviderTag(g);
    CrossIndex([OpenJCEPlus], keySizes, i);
  }
}
