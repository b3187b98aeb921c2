/** `CurrencyExchangeRate.Builder`: an accumulator of the rate's fields
    plus free-form attributes. Setters never validate; `Build` runs the
    constructor's null checks and freezes the result. The builder's getters
    are the datatype's fields. */
module RateBuilders {
  import opened Results
  import Rates = ExchangeRates

  datatype Builder<C, T, A> = Builder(
    rateType: Option<T>,
    source: Option<C>,
    target: Option<C>,
    factor: Option<real>,
    provider: Option<string>,
    validFrom: Option<int>,
    validUntil: Option<int>,
    rateChain: Option<seq<Rates.Rate<C, T>>>,
    attributes: map<string, A>)

  /** The four fields the constructor insists on. */
  ghost predicate HasRequired<C, T, A>(b: Builder<C, T, A>) {
    b.rateType.Some? && b.source.Some? && b.target.Some? && b.factor.Some?
  }

  /** `new Builder()`: every field null, no attributes. */
  function NewBuilder<C, T, A>(): (b: Builder<C, T, A>)
    ensures b.rateType.None? && b.source.None? && b.target.None? && b.factor.None?
    ensures b.provider.None? && b.validFrom.None? && b.validUntil.None? && b.rateChain.None?
    ensures forall key :: GetAttribute(b, key).None?
    ensures !IsBuildable(b)
  {
    Builder(None, None, None, None, None, None, None, None, map[])
  }

  // -------------------------------------------------------------- attributes

  /** `getAttribute`: the stored value, or null. */
  function GetAttribute<C, T, A>(b: Builder<C, T, A>, key: string): Option<A> {
    if key in b.attributes then Some(b.attributes[key]) else None
  }

  function SetAttribute<C, T, A>(b: Builder<C, T, A>, key: string, value: A): (r: Builder<C, T, A>)
    ensures GetAttribute(r, key) == Some(value)
    ensures forall k :: k != key ==> GetAttribute(r, k) == GetAttribute(b, k)
    ensures r.(attributes := b.attributes) == b
  {
    b.(attributes := b.attributes[key := value])
  }

  function ClearAttributes<C, T, A>(b: Builder<C, T, A>): (r: Builder<C, T, A>)
    ensures forall k :: GetAttribute(r, k).None?
    ensures r.(attributes := b.attributes) == b
  {
    b.(attributes := map[])
  }

  // ----------------------------------------------------------------- setters

  function SetExchangeRateType<C, T, A>(b: Builder<C, T, A>, rateType: Option<T>): (r: Builder<C, T, A>)
    ensures r.rateType == rateType && r.(rateType := b.rateType) == b
  {
    b.(rateType := rateType)
  }

  function SetSource<C, T, A>(b: Builder<C, T, A>, currency: Option<C>): (r: Builder<C, T, A>)
    ensures r.source == currency && r.(source := b.source) == b
  {
    b.(source := currency)
  }

  function SetTarget<C, T, A>(b: Builder<C, T, A>, currency: Option<C>): (r: Builder<C, T, A>)
    ensures r.target == currency && r.(target := b.target) == b
  {
    b.(target := currency)
  }

  function SetValidFrom<C, T, A>(b: Builder<C, T, A>, validFrom: Option<int>): (r: Builder<C, T, A>)
    ensures r.validFrom == validFrom && r.(validFrom := b.validFrom) == b
  {
    b.(validFrom := validFrom)
  }

  function SetValidUntil<C, T, A>(b: Builder<C, T, A>, validUntil: Option<int>): (r: Builder<C, T, A>)
    ensures r.validUntil == validUntil && r.(validUntil := b.validUntil) == b
  {
    b.(validUntil := validUntil)
  }

  function SetProvider<C, T, A>(b: Builder<C, T, A>, provider: Option<string>): (r: Builder<C, T, A>)
    ensures r.provider == provider && r.(provider := b.provider) == b
  {
    b.(provider := provider)
  }

  /** `setExchangeRateChain(rates...)`: a copy of the array, or null. */
  function SetExchangeRateChain<C, T, A>(b: Builder<C, T, A>, chain: Option<seq<Rates.Rate<C, T>>>): (r: Builder<C, T, A>)
    ensures r.rateChain == chain && r.(rateChain := b.rateChain) == b
  {
    b.(rateChain := chain)
  }

  /** `setSourceLeadingFactor`: the factor as given, null included. */
  function SetSourceLeadingFactor<C, T, A>(b: Builder<C, T, A>, factor: Option<real>): (r: Builder<C, T, A>)
    ensures r.factor == factor && r.(factor := b.factor) == b
  {
    b.(factor := factor)
  }

  /** `setTargetLeadingFactor`: stores the reciprocal; a null argument is
      dereferenced and throws. */
  function SetTargetLeadingFactor<C, T, A>(b: Builder<C, T, A>, factor: Option<real>): (r: Result<Builder<C, T, A>, Rates.RateError>)
    requires factor.Some? ==> factor.value != 0.0
    ensures r.Err? <==> factor.None?
    ensures r.Err? ==> r.error == Rates.NullLeadingFactor
    ensures r.Ok? ==> r.value.factor.Some? && r.value.factor.value * factor.value == 1.0
    ensures r.Ok? ==> r.value.(factor := b.factor) == b
  {
    match factor
    case None => Err(Rates.NullLeadingFactor)
    case Some(f) => Ok(b.(factor := Some(1.0 / f)))
  }

  // ------------------------------------------------------------------- build

  /** `build()`: the seven-argument constructor on the builder's fields,
      then the provider, then the read-only flag. */
  function Build<C, T, A>(b: Builder<C, T, A>): (r: Rates.Outcome<C, T>)
    ensures r.Ok? <==> HasRequired(b)
    ensures r.Err? ==> r == Rates.NewRate(b.rateType, b.source, b.target, b.factor)
    ensures r.Ok? ==> && r.value.rateType == b.rateType.value
                      && r.value.source == b.source.value
                      && r.value.target == b.target.value
                      && r.value.factor == b.factor.value
    ensures r.Ok? ==> && r.value.validFrom == b.validFrom
                      && r.value.validUntil == b.validUntil
                      && r.value.provider == b.provider
                      && r.value.readOnly
    ensures r.Ok? && b.rateChain.None? ==> r.value.chain.SelfChain? && !Rates.IsDerived(r.value)
    ensures r.Ok? && b.rateChain.Some? ==> Rates.GetExchangeRateChain(r.value) == b.rateChain.value
  {
    var rate :- Rates.NewRateWithChainAndValidity(b.rateType, b.source, b.target, b.factor,
                                                  b.rateChain, b.validFrom, b.validUntil);
    // The rate is not yet read-only, so setting the provider cannot throw.
    var named := Rates.SetProvider(rate, b.provider).value;
    Ok(Rates.Freeze(named))
  }

  /** `isBuildeable()`: whether `build()` would return rather than throw. */
  predicate IsBuildable<C, T, A>(b: Builder<C, T, A>) {
    Build(b).Ok?
  }

  /** Buildable exactly when rate type, source, target and factor are set;
      in particular a zero or negative factor is accepted. */
  lemma BuildableIffRequiredSet<C, T, A>(b: Builder<C, T, A>)
    ensures IsBuildable(b) <==> HasRequired(b)
    ensures HasRequired(b) && b.factor.value <= 0.0 ==> IsBuildable(b)
  {
  }

  /** Attributes never reach the built rate. */
  lemma AttributesDoNotReachRate<C, T, A>(b: Builder<C, T, A>, key: string, value: A)
    ensures Build(SetAttribute(b, key, value)) == Build(b)
    ensures Build(ClearAttributes(b)) == Build(b)
  {
  }

  /** A target-leading factor is the inverse of a source-leading one. */
  lemma TargetLeadingIsInverse<C, T, A>(b: Builder<C, T, A>, f: real)
    requires f != 0.0
    ensures SetTargetLeadingFactor(b, Some(f)) == Ok(SetSourceLeadingFactor(b, Some(1.0 / f)))
    ensures SetTargetLeadingFactor(b, Some(1.0 / f)) == Ok(SetSourceLeadingFactor(b, Some(f)))
  {
    assert 1.0 / (1.0 / f) == f;
  }

  /** A rate built from a target-leading factor is an identity exactly when
      that factor is one. */
  lemma TargetLeadingIdentity<C, T, A>(b: Builder<C, T, A>, f: real)
    requires f != 0.0
    requires b.rateType.Some? && b.source.Some? && b.target.Some?
    ensures Build(SetTargetLeadingFactor(b, Some(f)).value).Ok?
    ensures Rates.IsIdentity(Build(SetTargetLeadingFactor(b, Some(f)).value).value) <==> f == 1.0
  {
    var built := Build(SetTargetLeadingFactor(b, Some(f)).value).value;
    assert built.factor * f == 1.0;
  }

  /** A built rate refuses every guarded setter from then on: whatever is
      called, its provider, validity window and read-only flag stay those
      of the builder; only the chain can still be replaced. */
  lemma BuiltRateIsFrozen<C, T, A>(b: Builder<C, T, A>, calls: seq<Rates.Mutation<C, T>>)
    requires IsBuildable(b)
    ensures var later := Rates.ApplyAll(Build(b).value, calls);
            && later.readOnly
            && later.provider == b.provider
            && later.validFrom == b.validFrom
            && later.validUntil == b.validUntil
            && later.factor == b.factor.value
  {
    var rate := Build(b).value;
    Rates.FrozenRateChangesOnlyChain(rate, calls);
    var later := Rates.ApplyAll(rate, calls);
    assert later.(chain := rate.chain) == rate;
    assert later.readOnly == rate.readOnly && later.provider == rate.provider;
  }

  /** A spot quote of 0.92 from `usd` to `eur`: not derived, not an
      identity, and valid at any time since no upper bound is set. */
  lemma DirectRateExample<C, T, A>(spot: T, usd: C, eur: C, now: int)
    ensures var b := SetSourceLeadingFactor(SetTarget(SetSource(SetExchangeRateType(
                       NewBuilder<C, T, A>(), Some(spot)), Some(usd)), Some(eur)), Some(0.92));
            && Build(b).Ok?
            && Build(b).value.factor == 0.92
            && |Rates.GetExchangeRateChain(Build(b).value)| == 1
            && !Rates.IsDerived(Build(b).value)
            && !Rates.IsIdentity(Build(b).value)
            && Rates.IsValid(Build(b).value, now)
  {
  }

  /** Two built rates composed into a third through an explicit chain give
      a derived rate with a chain of length two. */
  lemma ComposedRateExample<C, T, A>(b1: Builder<C, T, A>, b2: Builder<C, T, A>, derived: T, factor: real)
    requires IsBuildable(b1) && IsBuildable(b2)
    ensures var v1, v2 := Build(b1).value, Build(b2).value;
            var v3 := Rates.NewRateWithChain(Some(derived), Some(v1.source), Some(v2.target),
                                             Some(factor), Some([v1, v2]));
            && v3.Ok?
            && Rates.IsDerived(v3.value)
            && Rates.GetExchangeRateChain(v3.value) == [v1, v2]
  {
  }
}
