# Currency exchange rates

A Dafny model of `CurrencyExchangeRate` and its nested `Builder` from the
JSR 354 reference implementation. The rate is a value type. It holds a
source and a target currency, a factor and a rate type, all four final. It
also holds an optional validity window, an optional provider, a chain of
constituent rates and a read-only flag. It answers whether it is derived,
an identity or currently valid. It orders itself against other rates by
rate type and then by provider. The builder accumulates the same fields,
plus attributes, and turns them into a frozen rate.

Modelling choices:

- Currencies (`C`) and rate types (`T`) are opaque type parameters.
  `CompareTo` takes the rate types' `compareTo` as a parameter `order`.
- Java `null` is `Option.None`. A thrown exception is `Result.Err`, with one
  `RateError` constructor per cause of failure. `NullDereference` is
  `String.compareTo(null)` in either provider branch of `compareTo`;
  `NullLeadingFactor` is the builder's `factor.doubleValue()` on null.
- The factor is a `real`, and timestamps are `int` milliseconds.
- The getters of the rate and of the builder are the datatypes' fields.
  `isBuildeable` is a predicate of the builder, so it cannot change it.
- "Now" is a parameter of `IsValid`, not a clock reading.
- The chain is `SelfChain` (the initial `{ this }` array, read at query time)
  or `Explicit(links)`.
- Java arrays are references into a small value heap (module `JavaArrays`).
  The getter's copy is modelled as an allocation, so its non-aliasing is
  proved. The rate itself keeps its chain as a value, so the setter's copy
  holds by representation rather than by a modelled `clone()`.
- The rate's mutators return a new rate or an error. `Mutation`/`ApplyAll`
  replay a sequence of calls with Java statement semantics: a call that
  throws leaves the object unchanged.

Behaviour of the code that the model reproduces:

- The code accepts a zero or negative factor, in the constructor and in
  `build()`.
- `setExchangeRateChain` accepts an empty array. It also never checks the
  read-only flag, so a frozen rate still takes a new chain.
- `compareTo` with equal rate types and exactly one provider absent calls
  `String.compareTo(null)` and throws, whichever of the two rates lacks
  the provider.
- `isValid` returns true once `validUntil <= now` (see Findings).

## Model

| member | source | states |
|---|---|---|
| `Comparisons.CompareStrings` | money-impl/ri/src/main/java/net/java/javamoney/ri/convert/CurrencyExchangeRate.java:178-182 | the provider comparison (`String.compareTo`) is zero exactly on equal strings |
| `Comparisons.CompareStringsAntisymmetric` | money-impl/ri/src/main/java/net/java/javamoney/ri/convert/CurrencyExchangeRate.java:178-182 | swapping the providers negates the comparison |
| `Comparisons.CompareStringsTransitive` | money-impl/ri/src/main/java/net/java/javamoney/ri/convert/CurrencyExchangeRate.java:178-182 | the provider comparison is transitive |
| `Comparisons.CompareStringsIsLexicographic` | money-impl/ri/src/main/java/net/java/javamoney/ri/convert/CurrencyExchangeRate.java:178-182 | the comparison is negative exactly when the first string is lexicographically before the second, checked against an independent definition |
| `ExchangeRates.NewRate` | money-impl/ri/src/main/java/net/java/javamoney/ri/convert/CurrencyExchangeRate.java:47-66 | fails iff source, target, factor or rate type is null, reporting the first one in that order; on success it holds exactly the arguments, a one-entry self chain (so not derived), no bounds, no provider, and is writable |
| `ExchangeRates.NewRateWithChain` | money-impl/ri/src/main/java/net/java/javamoney/ri/convert/CurrencyExchangeRate.java:68-73 | the four checks come first, then a null chain fails; on success the chain reads back as given and the rate is derived iff the chain has more than one entry |
| `ExchangeRates.NewRateWithChainAndValidity` | money-impl/ri/src/main/java/net/java/javamoney/ri/convert/CurrencyExchangeRate.java:75-84 | fails only on the four required fields; a null chain keeps the self chain (not derived); both bounds are stored |
| `ExchangeRates.NewRateWithValidity` | money-impl/ri/src/main/java/net/java/javamoney/ri/convert/CurrencyExchangeRate.java:86-92 | fails only on the four required fields; self chain and both bounds stored |
| `ExchangeRates.ConstructorsAgree` | money-impl/ri/src/main/java/net/java/javamoney/ri/convert/CurrencyExchangeRate.java:47-92 | the shorter constructors equal the seven-argument one with null chain or null bounds |
| `ExchangeRates.IsDerivedIffLongChain` | money-impl/ri/src/main/java/net/java/javamoney/ri/convert/CurrencyExchangeRate.java:146-149 | derived iff the chain returned by the getter has more than one entry; the self chain has exactly one |
| `ExchangeRates.SetExchangeRateChain` | money-impl/ri/src/main/java/net/java/javamoney/ri/convert/CurrencyExchangeRate.java:151-157 | fails iff the chain is null; otherwise the getter returns exactly the given entries (empty included) and no other field, read-only flag included, changes |
| `ExchangeRates.SetValidFrom` | money-impl/ri/src/main/java/net/java/javamoney/ri/convert/CurrencyExchangeRate.java:115-118 | fails iff the rate is read-only; otherwise only the lower bound changes, to the argument |
| `ExchangeRates.SetValidUntil` | money-impl/ri/src/main/java/net/java/javamoney/ri/convert/CurrencyExchangeRate.java:125-128 | fails iff the rate is read-only; otherwise only the upper bound changes, to the argument |
| `ExchangeRates.SetProvider` | money-impl/ri/src/main/java/net/java/javamoney/ri/convert/CurrencyExchangeRate.java:141-144 | fails iff the rate is read-only; otherwise only the provider changes, to the argument |
| `ExchangeRates.Freeze` | money-impl/ri/src/main/java/net/java/javamoney/ri/convert/CurrencyExchangeRate.java:331 | the rate becomes read-only and nothing else changes |
| `ExchangeRates.FinalFieldsNeverChange` | money-impl/ri/src/main/java/net/java/javamoney/ri/convert/CurrencyExchangeRate.java:38-41 | after any sequence of setter, chain and freeze calls, rate type, source, target and factor are those of construction |
| `ExchangeRates.FrozenRateChangesOnlyChain` | money-impl/ri/src/main/java/net/java/javamoney/ri/convert/CurrencyExchangeRate.java:115-157 | a read-only rate stays read-only and keeps provider and validity bounds under any sequence of calls; only its chain can change |
| `ExchangeRates.FrozenRateAcceptsChain` | money-impl/ri/src/main/java/net/java/javamoney/ri/convert/CurrencyExchangeRate.java:151-157 | a read-only rate that refuses a provider still accepts a longer chain and becomes derived |
| `ExchangeRates.SetExchangeRateChainFromArray` | money-impl/ri/src/main/java/net/java/javamoney/ri/convert/CurrencyExchangeRate.java:151-157 | given an array reference, fails iff it is null, else stores that array's current contents |
| `ExchangeRates.GetExchangeRateChainArray` | money-impl/ri/src/main/java/net/java/javamoney/ri/convert/CurrencyExchangeRate.java:159-162 | returns a newly allocated array, distinct from every existing one, holding the chain |
| `ExchangeRates.ChainInputIsCopied` | money-impl/ri/src/main/java/net/java/javamoney/ri/convert/CurrencyExchangeRate.java:151-157 | writing to the array after passing it to the setter changes the array but not the stored chain (by the value representation, see Left out) |
| `ExchangeRates.ChainOutputIsCopied` | money-impl/ri/src/main/java/net/java/javamoney/ri/convert/CurrencyExchangeRate.java:159-162 | writing to the returned array changes no array held before the call and not the chain the rate reports next |
| `ExchangeRates.CompareTo` | money-impl/ri/src/main/java/net/java/javamoney/ri/convert/CurrencyExchangeRate.java:169-185 | null other gives -1; differing rate types give the type order; on a tie both providers absent give 0, both present give their lexicographic comparison, exactly one absent fails with a null dereference |
| `ExchangeRates.CompareToReflexive` | money-impl/ri/src/main/java/net/java/javamoney/ri/convert/CurrencyExchangeRate.java:169-185 | for a rate-type order obeying the Comparable contract, a rate compares equal to itself and never fails |
| `ExchangeRates.CompareToAntisymmetric` | money-impl/ri/src/main/java/net/java/javamoney/ri/convert/CurrencyExchangeRate.java:169-185 | swapping the two rates fails in exactly the same cases and otherwise flips the sign |
| `ExchangeRates.CompareToTransitive` | money-impl/ri/src/main/java/net/java/javamoney/ri/convert/CurrencyExchangeRate.java:169-185 | x > y and y > z give x > z without failure |
| `ExchangeRates.IsValidNeverExpires` | money-impl/ri/src/main/java/net/java/javamoney/ri/convert/CurrencyExchangeRate.java:130-134 | as written, a rate valid at some time is valid at every later time |
| `ExchangeRates.ValidityIgnoresValidFrom` | money-impl/ri/src/main/java/net/java/javamoney/ri/convert/CurrencyExchangeRate.java:115-134 | a call to set the lower bound, accepted or refused, never changes either validity answer |
| `ExchangeRates.IsValidInvertsExpiry` | money-impl/ri/src/main/java/net/java/javamoney/ri/convert/CurrencyExchangeRate.java:130-134 | as written, a passed upper bound reads as valid and a future one as invalid, the opposite of the intended test |
| `ExchangeRates.IntendedValidityExpires` | money-impl/ri/src/main/java/net/java/javamoney/ri/convert/CurrencyExchangeRate.java:130-134 | the corrected test: valid with no upper bound, invalid at and after the bound, and once expired it stays expired |
| `RateBuilders.NewBuilder` | money-impl/ri/src/main/java/net/java/javamoney/ri/convert/CurrencyExchangeRate.java:206-216 | a new builder has each of its eight fields null and no attributes, and is not buildable |
| `RateBuilders.SetAttribute` | money-impl/ri/src/main/java/net/java/javamoney/ri/convert/CurrencyExchangeRate.java:218-230 | the key then reads back the value, every other key reads as before, and no rate field changes |
| `RateBuilders.ClearAttributes` | money-impl/ri/src/main/java/net/java/javamoney/ri/convert/CurrencyExchangeRate.java:223-225 | every key then reads null and no rate field changes |
| `RateBuilders.SetExchangeRateType` | money-impl/ri/src/main/java/net/java/javamoney/ri/convert/CurrencyExchangeRate.java:232-239 | the getter returns the argument, null included, and nothing else changes |
| `RateBuilders.SetSource` | money-impl/ri/src/main/java/net/java/javamoney/ri/convert/CurrencyExchangeRate.java:241-248 | the getter returns the argument and nothing else changes |
| `RateBuilders.SetTarget` | money-impl/ri/src/main/java/net/java/javamoney/ri/convert/CurrencyExchangeRate.java:250-257 | the getter returns the argument and nothing else changes |
| `RateBuilders.SetValidFrom` | money-impl/ri/src/main/java/net/java/javamoney/ri/convert/CurrencyExchangeRate.java:259-266 | the getter returns the argument and nothing else changes |
| `RateBuilders.SetValidUntil` | money-impl/ri/src/main/java/net/java/javamoney/ri/convert/CurrencyExchangeRate.java:268-275 | the getter returns the argument and nothing else changes |
| `RateBuilders.SetExchangeRateChain` | money-impl/ri/src/main/java/net/java/javamoney/ri/convert/CurrencyExchangeRate.java:277-291 | the stored chain is the given entries or null, and nothing else changes |
| `RateBuilders.SetSourceLeadingFactor` | money-impl/ri/src/main/java/net/java/javamoney/ri/convert/CurrencyExchangeRate.java:293-296 | stores the factor unchanged, null included |
| `RateBuilders.SetTargetLeadingFactor` | money-impl/ri/src/main/java/net/java/javamoney/ri/convert/CurrencyExchangeRate.java:298-301 | fails on null with the null-factor dereference; otherwise stores a factor whose product with the argument is one, changing nothing else |
| `RateBuilders.SetProvider` | money-impl/ri/src/main/java/net/java/javamoney/ri/convert/CurrencyExchangeRate.java:303-310 | the getter returns the argument and nothing else changes |
| `RateBuilders.Build` | money-impl/ri/src/main/java/net/java/javamoney/ri/convert/CurrencyExchangeRate.java:326-333 | fails iff type, source, target or factor is null, with the constructor's error; otherwise a read-only rate carrying exactly the builder's type, currencies, factor, bounds and provider, and the builder's chain or, when that is null, the self chain (not derived) |
| `RateBuilders.BuildableIffRequiredSet` | money-impl/ri/src/main/java/net/java/javamoney/ri/convert/CurrencyExchangeRate.java:316-324 | buildable iff the four required fields are set; a non-positive factor does not prevent it |
| `RateBuilders.AttributesDoNotReachRate` | money-impl/ri/src/main/java/net/java/javamoney/ri/convert/CurrencyExchangeRate.java:326-333 | setting or clearing attributes never changes what `build()` returns |
| `RateBuilders.TargetLeadingIsInverse` | money-impl/ri/src/main/java/net/java/javamoney/ri/convert/CurrencyExchangeRate.java:293-301 | a target-leading f equals a source-leading 1/f, and a target-leading 1/f equals a source-leading f |
| `RateBuilders.TargetLeadingIdentity` | money-impl/ri/src/main/java/net/java/javamoney/ri/convert/CurrencyExchangeRate.java:164-167 | a rate built from a target-leading factor f is an identity iff f is exactly one |
| `RateBuilders.BuiltRateIsFrozen` | money-impl/ri/src/main/java/net/java/javamoney/ri/convert/CurrencyExchangeRate.java:326-333 | after any sequence of calls, a built rate is still read-only and keeps the builder's provider, bounds and factor |
| `RateBuilders.DirectRateExample` | money-impl/ri/src/main/java/net/java/javamoney/ri/convert/CurrencyExchangeRate.java:326-333 | a 0.92 spot rate builds to factor 0.92 with a one-entry chain, not derived, not an identity, and valid at any time |
| `RateBuilders.ComposedRateExample` | money-impl/ri/src/main/java/net/java/javamoney/ri/convert/CurrencyExchangeRate.java:68-73 | two built rates placed in a new rate's chain make it derived with a chain of exactly those two |

## Left out

- `CurrencyToken`: display formatting. It relies on locale and formatter-factory machinery that is not part of this model. Its own logic is a switch over currency getters.
- `toString`: string rendering only.
- The clock: `System.currentTimeMillis()` becomes the `now` argument of `IsValid`.
- `Number` and IEEE `double`: the factor is an exact `real`, so `isIdentity` compares exactly with 1 and `doubleValue()` rounding is not modelled.
- RateBuilders.SetTargetLeadingFactor: requires a non-zero argument. In Java, `1.0d / 0` yields an infinite factor, and a `real` has no infinity.
- `AbstractAttributableItem` is not part of this model. `setReadOnly` and `ensureWritable` appear only as the `readOnly` flag and the `ReadOnly` error. The rate's own attribute map is not modelled.
- `Builder.getAttribute`'s unchecked cast: attribute values have one type parameter `A`. Null keys and null values are not modelled separately.
- Comparisons.CompareStrings: compares Dafny characters (Unicode scalar values), not UTF-16 code units. The two orders differ only for characters outside the Basic Multilingual Plane.
- Null entries inside a chain array: chain entries are always rates. The core never reads an entry.
- ExchangeRates.SetExchangeRateChain: chain entries are copies of each rate as it was when the chain was set, not references to live objects. In Java the array holds references, so a rate changed after being placed in another rate's chain (or an explicit chain holding the rate itself, then changed) shows the change through the chain; the model does not. Only the initial self chain is read at query time.
- ExchangeRates.ChainInputIsCopied: holds because the rate stores its chain as a value; the `clone()` on input is not modelled as an allocation, so a setter that kept the caller's array would satisfy it too.
- Timestamps are unbounded integers rather than 64-bit `Long`. They are only compared, never computed with, so the width does not matter.
- Thread safety: the builder is documented as single-threaded, and nothing here is concurrent.

## Findings

| source | as written | input that shows it | evidently intended | confidence | as-written member | corrected member |
|---|---|---|---|---|---|---|
| money-impl/ri/src/main/java/net/java/javamoney/ri/convert/CurrencyExchangeRate.java:130-134 | `isValid` is true when `validUntil <= now` | `validUntil = 0`, `now = 1`: an expired rate reads valid; `validUntil = 2`, `now = 1`: a current rate reads invalid | valid while `now < validUntil` | high; not executed | `ExchangeRates.IsValidInvertsExpiry` | `ExchangeRates.IntendedValidityExpires` |
