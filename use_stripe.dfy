/**
 * The client composable `useStripe` of `src/runtime/app/composables/useStripe.ts`:
 * the options the Stripe.js client is created with, the key that decides when
 * it is created again, and the reload callback that updates the `stripe` ref.
 * Vue's reactivity is left to the caller: `StripeRef.SetCaller` is what the
 * computed values and the watcher do together when the caller's options change.
 */
module ClientOptions {
  import opened Wrappers
  import opened JsText
  import opened JsValue

  const PublishableKey := "publishableKey"
  const ApiVersion := "apiVersion"
  const Locale := "locale"
  const Betas := "betas"
  const StripeAccount := "stripeAccount"

  /** `useRuntimeConfig().public.stripe`. */
  datatype PublicConfig = PublicConfig(publishableKey: string, options: Options)

  /** `stripeConfig?.options`, spread: nothing when the config is missing. */
  function ConfigOptions(config: Option<PublicConfig>): Options {
    if config.Some? then config.value.options else map[]
  }

  /** `stripeConfig?.publishableKey`. */
  function ConfigKey(config: Option<PublicConfig>): Value {
    if config.Some? then Atom(Str(config.value.publishableKey)) else Atom(Undefined)
  }

  /** `toRaw(unref(options))`, spread: nothing when the caller passed none. */
  function CallerOptions(caller: Option<Options>): Options {
    if caller.Some? then caller.value else map[]
  }

  /** `stripeOptions`: the caller's fields over the runtime-config fields, then
      `publishableKey ||= stripeConfig?.publishableKey`. */
  function MergeOptions(config: Option<PublicConfig>, caller: Option<Options>): (r: Options)
    ensures forall f :: f != PublishableKey ==> (f in r <==> f in ConfigOptions(config) || f in CallerOptions(caller))
    ensures forall f :: f != PublishableKey && f in CallerOptions(caller) ==> r[f] == CallerOptions(caller)[f]
    ensures forall f :: f != PublishableKey && f !in CallerOptions(caller) && f in ConfigOptions(config) ==>
      r[f] == ConfigOptions(config)[f]
    ensures PublishableKey in r
    ensures var given := Get(ConfigOptions(config) + CallerOptions(caller), PublishableKey);
      r[PublishableKey] == if Truthy(given) then given else ConfigKey(config)
  {
    var raw := ConfigOptions(config) + CallerOptions(caller);
    if Truthy(Get(raw, PublishableKey)) then raw else raw[PublishableKey := ConfigKey(config)]
  }

  /** The publishable key is the caller's when it is truthy, else the runtime
      config's (when the config options do not carry one of their own). */
  lemma ResolvedPublishableKey(config: Option<PublicConfig>, caller: Option<Options>)
    requires PublishableKey !in ConfigOptions(config)
    ensures var key := Get(CallerOptions(caller), PublishableKey);
      MergeOptions(config, caller)[PublishableKey] == if Truthy(key) then key else ConfigKey(config)
  {
  }

  // ---------------------------------------------------------------------------
  // The reload key
  // ---------------------------------------------------------------------------

  /** `${value || ''}`. */
  function Segment(v: Value): string {
    if Truthy(v) then ValueToString(v) else ""
  }

  /** `betas?.filter(Boolean)` is only defined for an array or a nullish value. */
  predicate BetasWellTyped(o: Options) {
    Get(o, Betas).Array? || IsNullish(Get(o, Betas).a)
  }

  /** `.filter(Boolean).map(x => String(x))`: one string per truthy entry,
      none of them empty. */
  function BetaStrings(items: seq<Prim>): (r: seq<string>)
    ensures |r| <= |items|
    ensures forall k :: 0 <= k < |r| ==> r[k] != ""
  {
    if |items| == 0 then []
    else (if TruthyPrim(items[0]) then [PrimToString(items[0])] else []) + BetaStrings(items[1..])
  }

  /** `betas?.filter(Boolean).map(x => String(x)).sort().join(',') || ''`:
      empty exactly when there is no truthy entry. */
  function BetasSegment(v: Value): (r: string)
    requires v.Array? || IsNullish(v.a)
    ensures r == "" <==> v.Atom? || BetaStrings(v.items) == []
  {
    match v
    case Array(items) =>
      SortedJoinEmpty(BetaStrings(items));
      Join(Sort(BetaStrings(items)), ",")
    case Atom(_) => ""
  }

  /** Sorted and joined, non-empty strings give the empty string only when
      there are none. */
  lemma SortedJoinEmpty(strs: seq<string>)
    requires forall k :: 0 <= k < |strs| ==> strs[k] != ""
    ensures Join(Sort(strs), ",") == "" <==> strs == []
  {
    var sorted := Sort(strs);
    assert |sorted| == |multiset(sorted)| == |multiset(strs)| == |strs|;
    if |sorted| > 0 {
      assert sorted[0] in multiset(strs);
      JoinNonEmpty(sorted, ",");
    }
  }

  lemma JoinNonEmpty(parts: seq<string>, sep: string)
    requires |parts| > 0 && parts[0] != ""
    ensures Join(parts, sep) != ""
  {
    if |parts| > 1 {
      assert Join(parts, sep)[..|parts[0]|] == parts[0];
    }
  }

  /** The part of the key before the betas: publishable key, API version
      (twice) and locale, each followed by '-'. */
  function KeyPrefix(o: Options): string {
    Segment(Get(o, PublishableKey)) + "-" + Segment(Get(o, ApiVersion)) + "-" + Segment(Get(o, ApiVersion))
      + "-" + Segment(Get(o, Locale)) + "-"
  }

  /** `hashKey`: the prefix above, then the sorted betas. Read at the offsets
      the field lengths give, whatever the values hold ('-' included), it shows
      the publishable key, the API version twice and the locale, each followed
      by '-', then the betas. */
  function HashKey(o: Options): (r: string)
    requires BetasWellTyped(o)
    ensures FieldsLaidOut(r, Segment(Get(o, PublishableKey)), Segment(Get(o, ApiVersion)),
                          Segment(Get(o, ApiVersion)), Segment(Get(o, Locale)), BetasSegment(Get(o, Betas)))
  {
    var p, a, l := Segment(Get(o, PublishableKey)), Segment(Get(o, ApiVersion)), Segment(Get(o, Locale));
    var b := BetasSegment(Get(o, Betas));
    assert KeyPrefix(o) + b == p + "-" + a + "-" + a + "-" + l + "-" + b;
    FieldsAt(p, a, a, l, b);
    KeyPrefix(o) + b
  }

  lemma {:induction false} BetaStringsAppend(a: seq<Prim>, b: seq<Prim>)
    ensures BetaStrings(a + b) == BetaStrings(a) + BetaStrings(b)
  {
    if |a| > 0 {
      BetaStringsAppend(a[1..], b);
      assert (a + b)[1..] == a[1..] + b;
    } else {
      assert a + b == b;
    }
  }

  /** The strings the betas contribute depend only on which betas there are,
      not on their order. */
  lemma {:induction false} BetaStringsPermutation(a: seq<Prim>, b: seq<Prim>)
    requires multiset(a) == multiset(b)
    ensures multiset(BetaStrings(a)) == multiset(BetaStrings(b))
    decreases |a|
  {
    if |a| == 0 {
      assert |b| == |multiset(b)| == 0;
    } else {
      var x, tail := a[0], a[1..];
      assert x in multiset(b);
      var i :| 0 <= i < |b| && b[i] == x;
      var l, r := b[..i], b[i + 1..];
      assert a == [] + [x] + tail;
      assert b == l + [x] + r;
      assert multiset(tail) == multiset(l + r) by {
        RemoveAt(a, 0);
        RemoveAt(b, i);
        assert a[..0] + a[1..] == tail;
        assert multiset(tail) == multiset(a) - multiset{x};
        assert multiset(l + r) == multiset(b) - multiset{x};
      }
      BetaStringsPermutation(tail, l + r);
      BetaStringsMiddle([], x, tail);
      BetaStringsMiddle(l, x, r);
      assert [] + tail == tail;
    }
  }

  lemma RemoveAt(s: seq<Prim>, i: nat)
    requires i < |s|
    ensures multiset(s) == multiset{s[i]} + multiset(s[..i] + s[i + 1..])
  {
    assert s == s[..i] + [s[i]] + s[i + 1..];
  }

  /** Taking one entry out takes out only what it contributes. */
  lemma BetaStringsMiddle(l: seq<Prim>, x: Prim, r: seq<Prim>)
    ensures multiset(BetaStrings(l + [x] + r)) == multiset(BetaStrings([x])) + multiset(BetaStrings(l + r))
  {
    var m := [x];
    BetaStringsAppend(l + m, r);
    BetaStringsAppend(l, m);
    BetaStringsAppend(l, r);
    var bl, bm, br := BetaStrings(l), BetaStrings(m), BetaStrings(r);
    assert multiset(bl + bm + br) == multiset(bl) + multiset(bm) + multiset(br);
    assert multiset(bl + br) == multiset(bl) + multiset(br);
  }

  /** Replacing the betas replaces only the last part of the key. */
  lemma HashKeyWithBetas(o: Options, v: Value)
    requires v.Array? || IsNullish(v.a)
    ensures BetasWellTyped(o[Betas := v])
    ensures HashKey(o[Betas := v]) == KeyPrefix(o) + BetasSegment(v)
  {
    var o' := o[Betas := v];
    assert Get(o', PublishableKey) == Get(o, PublishableKey);
    assert Get(o', ApiVersion) == Get(o, ApiVersion);
    assert Get(o', Locale) == Get(o, Locale);
    assert Get(o', Betas) == v;
  }

  /** The betas enter the key only through their sorted strings. */
  lemma HashKeyBySortedBetas(o: Options, a: seq<Prim>, b: seq<Prim>)
    requires Sort(BetaStrings(a)) == Sort(BetaStrings(b))
    ensures HashKey(o[Betas := Array(a)]) == HashKey(o[Betas := Array(b)])
  {
    HashKeyWithBetas(o, Array(a));
    HashKeyWithBetas(o, Array(b));
  }

  /** Reordering the betas never changes the key. */
  lemma HashKeyPermutationInvariant(o: Options, a: seq<Prim>, b: seq<Prim>)
    requires multiset(a) == multiset(b)
    ensures HashKey(o[Betas := Array(a)]) == HashKey(o[Betas := Array(b)])
  {
    assert Sort(BetaStrings(a)) == Sort(BetaStrings(b)) by {
      BetaStringsPermutation(a, b);
      SortPermutationInvariant(BetaStrings(a), BetaStrings(b));
    }
    HashKeyBySortedBetas(o, a, b);
  }

  /** A falsy entry anywhere in the betas never changes the key. */
  lemma HashKeyIgnoresFalsyBeta(o: Options, a: seq<Prim>, i: nat, x: Prim)
    requires i <= |a| && !TruthyPrim(x)
    ensures HashKey(o[Betas := Array(a[..i] + [x] + a[i..])]) == HashKey(o[Betas := Array(a)])
  {
    assert BetaStrings(a[..i] + [x] + a[i..]) == BetaStrings(a) by {
      BetaStringsWithout(a, i, x);
    }
    HashKeyBySortedBetas(o, a[..i] + [x] + a[i..], a);
  }

  lemma BetaStringsWithout(a: seq<Prim>, i: nat, x: Prim)
    requires i <= |a| && !TruthyPrim(x)
    ensures BetaStrings(a[..i] + [x] + a[i..]) == BetaStrings(a)
  {
    var l, r := a[..i], a[i..];
    var lx := l + [x];
    BetaStringsAppend(lx, r);
    BetaStringsAppend(l, [x]);
    assert BetaStrings([x]) == [] by {
      assert [x][1..] == [];
      assert BetaStrings([x]) == [] + BetaStrings([x][1..]);
    }
    assert BetaStrings(lx) == BetaStrings(l);
    BetaStringsAppend(l, r);
    assert l + r == a;
  }

  /** Read back field by field, the key shows the publishable key, the API
      version twice and the locale, each empty when the option is absent or
      falsy, followed by the betas, as long as those values hold no '-'. */
  lemma HashKeyShape(o: Options)
    requires BetasWellTyped(o)
    requires '-' !in Segment(Get(o, PublishableKey)) && '-' !in Segment(Get(o, ApiVersion))
    requires '-' !in Segment(Get(o, Locale))
    ensures Split(HashKey(o), '-') ==
      [Segment(Get(o, PublishableKey)), Segment(Get(o, ApiVersion)), Segment(Get(o, ApiVersion)),
       Segment(Get(o, Locale))] + Split(BetasSegment(Get(o, Betas)), '-')
  {
    SplitFields(Segment(Get(o, PublishableKey)), Segment(Get(o, ApiVersion)), Segment(Get(o, ApiVersion)),
      Segment(Get(o, Locale)), BetasSegment(Get(o, Betas)));
  }

  /** `k` is `a-b-c-d-e`, read at the offsets the lengths of `a` to `d` give. */
  predicate FieldsLaidOut(k: string, a: string, b: string, c: string, d: string, e: string) {
    var i1 := |a|;
    var i2 := i1 + 1 + |b|;
    var i3 := i2 + 1 + |c|;
    var i4 := i3 + 1 + |d|;
    i4 < |k| && k[..i1] == a && k[i1] == '-' && k[i1 + 1..i2] == b && k[i2] == '-'
    && k[i2 + 1..i3] == c && k[i3] == '-' && k[i3 + 1..i4] == d && k[i4] == '-' && k[i4 + 1..] == e
  }

  lemma FieldsAt(a: string, b: string, c: string, d: string, e: string)
    ensures FieldsLaidOut(a + "-" + b + "-" + c + "-" + d + "-" + e, a, b, c, d, e)
  {
  }

  lemma SplitFields(a: string, b: string, c: string, d: string, e: string)
    requires '-' !in a && '-' !in b && '-' !in c && '-' !in d
    ensures Split(a + "-" + b + "-" + c + "-" + d + "-" + e, '-') == [a, b, c, d] + Split(e, '-')
  {
    var t3 := d + "-" + e;
    var t2 := c + "-" + t3;
    var t1 := b + "-" + t2;
    assert a + "-" + b + "-" + c + "-" + d + "-" + e == a + "-" + t1;
    SplitAppend(d, e, '-');
    SplitAppend(c, t3, '-');
    SplitAppend(b, t2, '-');
    SplitAppend(a, t1, '-');
  }

  /** As written, the key never looks at `stripeAccount`. */
  lemma HashKeyIgnoresStripeAccount(o: Options, v: Value)
    requires BetasWellTyped(o)
    ensures BetasWellTyped(o[StripeAccount := v])
    ensures HashKey(o[StripeAccount := v]) == HashKey(o)
  {
    var o' := o[StripeAccount := v];
    assert Get(o', PublishableKey) == Get(o, PublishableKey);
    assert Get(o', ApiVersion) == Get(o, ApiVersion);
    assert Get(o', Locale) == Get(o, Locale);
    assert Get(o', Betas) == Get(o, Betas);
    KeyCongruent(o, o');
  }

  /** The key as written reads four fields and nothing else. */
  lemma KeyCongruent(x: Options, y: Options)
    requires BetasWellTyped(x)
    requires Get(x, PublishableKey) == Get(y, PublishableKey) && Get(x, ApiVersion) == Get(y, ApiVersion)
    requires Get(x, Locale) == Get(y, Locale) && Get(x, Betas) == Get(y, Betas)
    ensures BetasWellTyped(y) && HashKey(x) == HashKey(y)
  {
    assert KeyPrefix(x) == KeyPrefix(y);
  }

  /** The key with `stripeAccount` in the place of the second API version. */
  function HashKeyWithAccount(o: Options): string
    requires BetasWellTyped(o)
  {
    Segment(Get(o, PublishableKey)) + "-" + Segment(Get(o, ApiVersion)) + "-" + Segment(Get(o, StripeAccount))
      + "-" + Segment(Get(o, Locale)) + "-" + BetasSegment(Get(o, Betas))
  }

  /** The corrected key reads back as publishable key, API version, account,
      locale and betas, whatever the values hold. */
  lemma HashKeyWithAccountFields(o: Options)
    requires BetasWellTyped(o)
    ensures FieldsLaidOut(HashKeyWithAccount(o), Segment(Get(o, PublishableKey)), Segment(Get(o, ApiVersion)),
                          Segment(Get(o, StripeAccount)), Segment(Get(o, Locale)), BetasSegment(Get(o, Betas)))
  {
    FieldsAt(Segment(Get(o, PublishableKey)), Segment(Get(o, ApiVersion)), Segment(Get(o, StripeAccount)),
             Segment(Get(o, Locale)), BetasSegment(Get(o, Betas)));
  }

  /** Setting the account replaces only the middle part of the key. */
  lemma HashKeyWithAccountUpdate(o: Options, v: Value)
    requires BetasWellTyped(o)
    ensures BetasWellTyped(o[StripeAccount := v])
    ensures HashKeyWithAccount(o[StripeAccount := v]) ==
      (Segment(Get(o, PublishableKey)) + "-" + Segment(Get(o, ApiVersion)) + "-") + Segment(v)
      + ("-" + Segment(Get(o, Locale)) + "-" + BetasSegment(Get(o, Betas)))
  {
    var o' := o[StripeAccount := v];
    assert Get(o', PublishableKey) == Get(o, PublishableKey);
    assert Get(o', ApiVersion) == Get(o, ApiVersion);
    assert Get(o', Locale) == Get(o, Locale);
    assert Get(o', Betas) == Get(o, Betas);
    assert Get(o', StripeAccount) == v;
    var p, a, l := Segment(Get(o, PublishableKey)), Segment(Get(o, ApiVersion)), Segment(Get(o, Locale));
    var b := BetasSegment(Get(o, Betas));
    assert HashKeyWithAccount(o') == p + "-" + a + "-" + Segment(v) + "-" + l + "-" + b;
    Regroup(p, a, Segment(v), l, b);
  }

  lemma Regroup(p: string, a: string, c: string, l: string, b: string)
    ensures p + "-" + a + "-" + c + "-" + l + "-" + b == (p + "-" + a + "-") + c + ("-" + l + "-" + b)
  {
  }

  lemma MiddleDetermines(p: string, s1: string, s2: string, q: string)
    ensures p + s1 + q == p + s2 + q <==> s1 == s2
  {
    if p + s1 + q == p + s2 + q {
      assert |s1| == |s2|;
      assert s1 == (p + s1 + q)[|p|..|p| + |s1|];
      assert s2 == (p + s2 + q)[|p|..|p| + |s2|];
    }
  }

  /** With `stripeAccount` in the key, changing the connected account changes
      the key, and so reloads the client, exactly when its text changes. */
  lemma HashKeyWithAccountTracksAccount(o: Options, v1: Value, v2: Value)
    requires BetasWellTyped(o)
    ensures BetasWellTyped(o[StripeAccount := v1]) && BetasWellTyped(o[StripeAccount := v2])
    ensures HashKeyWithAccount(o[StripeAccount := v1]) == HashKeyWithAccount(o[StripeAccount := v2])
        <==> Segment(v1) == Segment(v2)
  {
    HashKeyWithAccountUpdate(o, v1);
    HashKeyWithAccountUpdate(o, v2);
    var p := Segment(Get(o, PublishableKey)) + "-" + Segment(Get(o, ApiVersion)) + "-";
    var q := "-" + Segment(Get(o, Locale)) + "-" + BetasSegment(Get(o, Betas));
    MiddleDetermines(p, Segment(v1), Segment(v2), q);
  }

  /** Replacing the betas changes only the last part of the corrected key. */
  lemma HashKeyWithAccountBetas(o: Options, v: Value)
    requires v.Array? || IsNullish(v.a)
    ensures BetasWellTyped(o[Betas := v])
    ensures HashKeyWithAccount(o[Betas := v]) ==
      Segment(Get(o, PublishableKey)) + "-" + Segment(Get(o, ApiVersion)) + "-" + Segment(Get(o, StripeAccount))
      + "-" + Segment(Get(o, Locale)) + "-" + BetasSegment(v)
  {
    var o' := o[Betas := v];
    assert Get(o', PublishableKey) == Get(o, PublishableKey);
    assert Get(o', ApiVersion) == Get(o, ApiVersion);
    assert Get(o', StripeAccount) == Get(o, StripeAccount);
    assert Get(o', Locale) == Get(o, Locale);
    assert Get(o', Betas) == v;
  }

  /** The corrected key, too, ignores the order of the betas. */
  lemma HashKeyWithAccountPermutationInvariant(o: Options, a: seq<Prim>, b: seq<Prim>)
    requires multiset(a) == multiset(b)
    ensures HashKeyWithAccount(o[Betas := Array(a)]) == HashKeyWithAccount(o[Betas := Array(b)])
  {
    assert Sort(BetaStrings(a)) == Sort(BetaStrings(b)) by {
      BetaStringsPermutation(a, b);
      SortPermutationInvariant(BetaStrings(a), BetaStrings(b));
    }
    HashKeyWithAccountBetas(o, Array(a));
    HashKeyWithAccountBetas(o, Array(b));
  }

  /** The key the watcher compares: `hashKey` as written, or, when
      `corrected`, the key with `stripeAccount` in it. */
  function WatchedKey(o: Options, corrected: bool): string
    requires BetasWellTyped(o)
  {
    if corrected then HashKeyWithAccount(o) else HashKey(o)
  }

  /** Changing the order of the caller's betas leaves the watched key, and
      hence the client, as it was, with either key. */
  lemma CallerBetasOrderIgnored(config: Option<PublicConfig>, caller: Options, a: seq<Prim>, b: seq<Prim>,
                                corrected: bool)
    requires multiset(a) == multiset(b)
    ensures BetasWellTyped(MergeOptions(config, Some(caller[Betas := Array(a)])))
    ensures BetasWellTyped(MergeOptions(config, Some(caller[Betas := Array(b)])))
    ensures WatchedKey(MergeOptions(config, Some(caller[Betas := Array(a)])), corrected)
         == WatchedKey(MergeOptions(config, Some(caller[Betas := Array(b)])), corrected)
  {
    var m := MergeOptions(config, Some(caller));
    MergeWithBetas(config, caller, Array(a));
    MergeWithBetas(config, caller, Array(b));
    HashKeyWithBetas(m, Array(a));
    HashKeyWithBetas(m, Array(b));
    if corrected {
      HashKeyWithAccountPermutationInvariant(m, a, b);
    } else {
      HashKeyPermutationInvariant(m, a, b);
    }
  }

  /** The caller's betas end up, as given, in the merged options. */
  lemma MergeWithBetas(config: Option<PublicConfig>, caller: Options, v: Value)
    ensures MergeOptions(config, Some(caller[Betas := v])) == MergeOptions(config, Some(caller))[Betas := v]
  {
    var base := ConfigOptions(config);
    var raw, raw' := base + caller, base + caller[Betas := v];
    assert raw' == raw[Betas := v];
    assert Get(raw', PublishableKey) == Get(raw, PublishableKey);
  }

  /** Two option objects that agree on every field but `stripeAccount`. */
  predicate SameExceptAccount(x: Options, y: Options) {
    x - {StripeAccount} == y - {StripeAccount}
  }

  /** Callers that differ only in `stripeAccount` give merged options that
      differ only there. */
  lemma MergeSameExceptAccount(config: Option<PublicConfig>, c1: Options, c2: Options)
    requires SameExceptAccount(c1, c2)
    ensures SameExceptAccount(MergeOptions(config, Some(c1)), MergeOptions(config, Some(c2)))
  {
    var base := ConfigOptions(config);
    var raw1, raw2 := base + c1, base + c2;
    assert SameExceptAccount(raw1, raw2) by {
      UnionWithoutAccount(base, c1);
      UnionWithoutAccount(base, c2);
    }
    GetSameExceptAccount(raw1, raw2, PublishableKey);
    UpdateWithoutAccount(raw1, ConfigKey(config));
    UpdateWithoutAccount(raw2, ConfigKey(config));
  }

  lemma UnionWithoutAccount(x: Options, y: Options)
    ensures (x + y) - {StripeAccount} == (x - {StripeAccount}) + (y - {StripeAccount})
  {
  }

  lemma UpdateWithoutAccount(x: Options, v: Value)
    ensures x[PublishableKey := v] - {StripeAccount} == (x - {StripeAccount})[PublishableKey := v]
  {
  }

  lemma GetSameExceptAccount(x: Options, y: Options, f: string)
    requires SameExceptAccount(x, y) && f != StripeAccount
    ensures Get(x, f) == Get(y, f)
  {
    assert f in x <==> f in x - {StripeAccount};
    assert f in y <==> f in y - {StripeAccount};
    if f in x {
      assert x[f] == (x - {StripeAccount})[f];
      assert y[f] == (y - {StripeAccount})[f];
    }
  }

  /** As written, options that differ only in `stripeAccount` have the same
      key, so the watcher does not fire. */
  lemma HashKeySameExceptAccount(x: Options, y: Options)
    requires SameExceptAccount(x, y) && BetasWellTyped(x)
    ensures BetasWellTyped(y) && HashKey(x) == HashKey(y)
  {
    GetSameExceptAccount(x, y, PublishableKey);
    GetSameExceptAccount(x, y, ApiVersion);
    GetSameExceptAccount(x, y, Locale);
    GetSameExceptAccount(x, y, Betas);
    KeyCongruent(x, y);
  }

  /** With `stripeAccount` in the key, options that differ only there have
      the same key exactly when the account reads the same. */
  lemma HashKeyWithAccountSameExceptAccount(x: Options, y: Options)
    requires SameExceptAccount(x, y) && BetasWellTyped(x)
    ensures BetasWellTyped(y)
    ensures HashKeyWithAccount(x) == HashKeyWithAccount(y)
        <==> Segment(Get(x, StripeAccount)) == Segment(Get(y, StripeAccount))
  {
    GetSameExceptAccount(x, y, PublishableKey);
    GetSameExceptAccount(x, y, ApiVersion);
    GetSameExceptAccount(x, y, Locale);
    GetSameExceptAccount(x, y, Betas);
    var vx, vy := Get(x, StripeAccount), Get(y, StripeAccount);
    HashKeyWithAccountUpdate(x, vx);
    HashKeyWithAccountUpdate(x, vy);
    AccountKeyCongruent(x[StripeAccount := vx], x);
    AccountKeyCongruent(x[StripeAccount := vy], y);
    var p := Segment(Get(x, PublishableKey)) + "-" + Segment(Get(x, ApiVersion)) + "-";
    var q := "-" + Segment(Get(x, Locale)) + "-" + BetasSegment(Get(x, Betas));
    MiddleDetermines(p, Segment(vx), Segment(vy), q);
  }

  /** The corrected key reads five fields and nothing else. */
  lemma AccountKeyCongruent(x: Options, y: Options)
    requires BetasWellTyped(x)
    requires Get(x, PublishableKey) == Get(y, PublishableKey) && Get(x, ApiVersion) == Get(y, ApiVersion)
    requires Get(x, StripeAccount) == Get(y, StripeAccount) && Get(x, Locale) == Get(y, Locale)
    requires Get(x, Betas) == Get(y, Betas)
    ensures BetasWellTyped(y) && HashKeyWithAccount(x) == HashKeyWithAccount(y)
  {
  }

  // ---------------------------------------------------------------------------
  // The reload callback and the `stripe` ref
  // ---------------------------------------------------------------------------

  /** How `loadStripe` (and the `registerAppInfo` call after it) ends. */
  datatype LoadOutcome<I> = Loaded(instance: I) | LoadedNull | Rejected

  datatype AppInfo = AppInfo(name: string, version: string, url: string)

  const ModuleAppInfo := AppInfo("@fixers/nuxt-stripe", "3.0.4", "https://nuxt-stripe.fixers.dev")

  /** The ref after the watch callback ran: without a truthy publishable key
      nothing is loaded; otherwise the ref takes the instance the loader gives
      once `registerAppInfo` returned, and keeps its value on null or on a throw. */
  function Reloaded<I>(current: Option<I>, options: Options, load: (Value, Options) -> LoadOutcome<I>,
                       register: (I, AppInfo) -> bool): (r: Option<I>)
    ensures !Truthy(Get(options, PublishableKey)) ==> r == current
    ensures r == current || (Truthy(Get(options, PublishableKey)) && r.Some?
      && load(Get(options, PublishableKey), options - {PublishableKey}) == Loaded(r.value)
      && register(r.value, ModuleAppInfo))
    ensures Truthy(Get(options, PublishableKey))
      && load(Get(options, PublishableKey), options - {PublishableKey}).Loaded?
      && register(load(Get(options, PublishableKey), options - {PublishableKey}).instance, ModuleAppInfo)
      ==> r == Some(load(Get(options, PublishableKey), options - {PublishableKey}).instance)
  {
    var key := Get(options, PublishableKey);
    if !Truthy(key) then current
    else match load(key, options - {PublishableKey})
      case Loaded(i) => if register(i, ModuleAppInfo) then Some(i) else current
      case _ => current
  }

  /** The state `useStripe` keeps: the merged options, the last key the
      watcher saw and the `stripe` ref. `corrected` chooses the key the
      watcher compares: false for `hashKey` as written, true for the key with
      `stripeAccount` in it (see `HashKeyIgnoresStripeAccount`). */
  class StripeRef<I> {
    const config: Option<PublicConfig>
    const corrected: bool
    var options: Options
    var key: string
    var stripe: Option<I>

    /** The key is the one the current options give. */
    predicate Valid()
      reads this
    {
      BetasWellTyped(options) && key == WatchedKey(options, corrected)
    }

    /** `useStripe(caller)`: the ref starts as null and the watcher runs once
        straight away. */
    constructor(config: Option<PublicConfig>, caller: Option<Options>, corrected: bool,
                load: (Value, Options) -> LoadOutcome<I>, register: (I, AppInfo) -> bool)
      requires BetasWellTyped(MergeOptions(config, caller))
      ensures Valid()
      ensures this.config == config && this.corrected == corrected && options == MergeOptions(config, caller)
      ensures key == WatchedKey(options, corrected)
      ensures stripe == Reloaded(None, options, load, register)
    {
      var merged := MergeOptions(config, caller);
      this.config := config;
      this.corrected := corrected;
      options := merged;
      key := WatchedKey(merged, corrected);
      stripe := None;
      new;
      Reload(load, register);
    }

    /** The watch callback. */
    method Reload(load: (Value, Options) -> LoadOutcome<I>, register: (I, AppInfo) -> bool)
      modifies this`stripe
      ensures stripe == Reloaded(old(stripe), options, load, register)
    {
      var publishableKey := Get(options, PublishableKey);
      var rest := options - {PublishableKey};
      if !Truthy(publishableKey) {
        return;
      }
      var outcome := load(publishableKey, rest);
      if !outcome.Loaded? {
        return;
      }
      if register(outcome.instance, ModuleAppInfo) {
        stripe := Some(outcome.instance);
      }
    }

    /** The caller's options change: the options and the key are recomputed,
        and the watcher reloads only when the key differs. As written, a change
        of `stripeAccount` alone never reloads; with the corrected key it
        reloads whenever the account reads differently. */
    method SetCaller(caller: Option<Options>, load: (Value, Options) -> LoadOutcome<I>, register: (I, AppInfo) -> bool)
      requires Valid() && BetasWellTyped(MergeOptions(config, caller))
      modifies this
      ensures Valid()
      ensures options == MergeOptions(config, caller) && key == WatchedKey(options, corrected)
      ensures stripe == if key == old(key) then old(stripe) else Reloaded(old(stripe), options, load, register)
      ensures !corrected && SameExceptAccount(old(options), options) ==> stripe == old(stripe)
      ensures corrected && SameExceptAccount(old(options), options)
        && Segment(Get(old(options), StripeAccount)) != Segment(Get(options, StripeAccount))
        ==> stripe == Reloaded(old(stripe), options, load, register)
    {
      var previous := options;
      options := MergeOptions(config, caller);
      var newKey := WatchedKey(options, corrected);
      if SameExceptAccount(previous, options) {
        if corrected {
          HashKeyWithAccountSameExceptAccount(previous, options);
        } else {
          HashKeySameExceptAccount(previous, options);
        }
      }
      if newKey != key {
        key := newKey;
        Reload(load, register);
      }
    }
  }
}
