/** The exchange-rate value type `CurrencyExchangeRate`: four final fields,
    a writable validity window and provider guarded by a read-only flag,
    a chain of constituent rates, classification queries and the ordering
    used to pick among competing rates.

    Currencies (`C`) and rate types (`T`) are opaque; the only thing the
    rate asks of a rate type is the comparison passed to `CompareTo`. */
module ExchangeRates {
  import opened Results
  import opened Comparisons
  import opened JavaArrays

  /** One constructor per cause of failure in the rate and its builder. */
  datatype RateError =
    | NullSource        // IllegalArgumentException: source may not be null
    | NullTarget        // IllegalArgumentException: target may not be null
    | NullFactor        // IllegalArgumentException: factor may not be null
    | NullRateType      // IllegalArgumentException: exchangeRateType may not be null
    | NullChain         // IllegalArgumentException: chain may not be null
    | ReadOnly          // a guarded setter called on a frozen rate
    | NullDereference   // NullPointerException: String.compareTo(null), either provider branch of compareTo
    | NullLeadingFactor // NullPointerException: factor.doubleValue() in the builder's setTargetLeadingFactor

  /** The constituent rates. `SelfChain` is the initial one-element array
      holding the rate itself; it is read at the time of the query, so it
      always shows the rate's current state. The entries of an `Explicit`
      chain are the constituent rates as they were when the chain was set. */
  datatype Chain<C, T> = SelfChain | Explicit(links: seq<Rate<C, T>>)

  datatype Rate<C, T> = Rate(
    rateType: T,
    source: C,
    target: C,
    factor: real,
    validFrom: Option<int>,
    validUntil: Option<int>,
    provider: Option<string>,
    chain: Chain<C, T>,
    readOnly: bool)

  type Outcome<C, T> = Result<Rate<C, T>, RateError>

  /** The four fields declared `final`. */
  ghost predicate SameFinalFields<C, T>(a: Rate<C, T>, b: Rate<C, T>) {
    a.rateType == b.rateType && a.source == b.source
    && a.target == b.target && a.factor == b.factor
  }

  /** The state of a rate right after the four-argument constructor body. */
  ghost predicate JustConstructed<C, T>(r: Rate<C, T>) {
    r.validFrom.None? && r.validUntil.None? && r.provider.None?
    && r.chain.SelfChain? && !r.readOnly
  }

  /** The argument check shared by every constructor, in the source's order. */
  ghost predicate RequiredPresent<C, T>(rateType: Option<T>, source: Option<C>,
                                        target: Option<C>, factor: Option<real>) {
    rateType.Some? && source.Some? && target.Some? && factor.Some?
  }

  ghost predicate CarriesRequired<C, T>(r: Rate<C, T>, rateType: Option<T>, source: Option<C>,
                                        target: Option<C>, factor: Option<real>)
    requires RequiredPresent(rateType, source, target, factor)
  {
    r.rateType == rateType.value && r.source == source.value
    && r.target == target.value && r.factor == factor.value
  }

  // ---------------------------------------------------------------- queries

  /** `getExchangeRateChain()` as contents. */
  function GetExchangeRateChain<C, T>(rate: Rate<C, T>): seq<Rate<C, T>> {
    match rate.chain
    case SelfChain => [rate]
    case Explicit(links) => links
  }

  /** `isDerived()`. */
  predicate IsDerived<C, T>(rate: Rate<C, T>) {
    match rate.chain
    case SelfChain => false
    case Explicit(links) => |links| > 1
  }

  /** `isIdentity()`: exact comparison with one, no tolerance. */
  predicate IsIdentity<C, T>(rate: Rate<C, T>) {
    rate.factor == 1.0
  }

  /** `isValid()` as written, with the clock reading passed in: a rate with
      an upper bound counts as valid once that bound has been reached. */
  predicate IsValid<C, T>(rate: Rate<C, T>, now: int) {
    rate.validUntil.None? || rate.validUntil.value <= now
  }

  /** The validity test the upper bound is evidently meant for: valid while
      `now` is still before `validUntil`. */
  predicate IsValidIntended<C, T>(rate: Rate<C, T>, now: int) {
    rate.validUntil.None? || now < rate.validUntil.value
  }

  // ---------------------------------------------------------------- mutators

  /** `setExchangeRateChain`: rejects null, stores a copy, and does not
      consult the read-only flag. */
  function SetExchangeRateChain<C, T>(rate: Rate<C, T>, chain: Option<seq<Rate<C, T>>>): (r: Outcome<C, T>)
    ensures r.Ok? <==> chain.Some?
    ensures r.Err? ==> r.error == NullChain
    ensures r.Ok? ==> GetExchangeRateChain(r.value) == chain.value
    ensures r.Ok? ==> IsDerived(r.value) == (|chain.value| > 1)
    ensures r.Ok? ==> r.value.(chain := rate.chain) == rate
  {
    match chain
    case None => Err(NullChain)
    case Some(links) => Ok(rate.(chain := Explicit(links)))
  }

  function SetValidFrom<C, T>(rate: Rate<C, T>, validFrom: Option<int>): (r: Outcome<C, T>)
    ensures r.Err? <==> rate.readOnly
    ensures r.Err? ==> r.error == ReadOnly
    ensures r.Ok? ==> r.value.validFrom == validFrom
    ensures r.Ok? ==> r.value.(validFrom := rate.validFrom) == rate
  {
    if rate.readOnly then Err(ReadOnly) else Ok(rate.(validFrom := validFrom))
  }

  function SetValidUntil<C, T>(rate: Rate<C, T>, validUntil: Option<int>): (r: Outcome<C, T>)
    ensures r.Err? <==> rate.readOnly
    ensures r.Err? ==> r.error == ReadOnly
    ensures r.Ok? ==> r.value.validUntil == validUntil
    ensures r.Ok? ==> r.value.(validUntil := rate.validUntil) == rate
  {
    if rate.readOnly then Err(ReadOnly) else Ok(rate.(validUntil := validUntil))
  }

  function SetProvider<C, T>(rate: Rate<C, T>, provider: Option<string>): (r: Outcome<C, T>)
    ensures r.Err? <==> rate.readOnly
    ensures r.Err? ==> r.error == ReadOnly
    ensures r.Ok? ==> r.value.provider == provider
    ensures r.Ok? ==> r.value.(provider := rate.provider) == rate
  {
    if rate.readOnly then Err(ReadOnly) else Ok(rate.(provider := provider))
  }

  /** `setReadOnly()`: raises the flag and touches nothing else. */
  function Freeze<C, T>(rate: Rate<C, T>): (r: Rate<C, T>)
    ensures r.readOnly
    ensures r.(readOnly := rate.readOnly) == rate
  {
    rate.(readOnly := true)
  }

  /** A rate is derived exactly when its chain has more than one entry; the
      self chain counts as one. */
  lemma IsDerivedIffLongChain<C, T>(rate: Rate<C, T>)
    ensures IsDerived(rate) <==> |GetExchangeRateChain(rate)| > 1
    ensures rate.chain.SelfChain? ==> |GetExchangeRateChain(rate)| == 1
  {
  }

  // ------------------------------------------------------------ constructors

  /** The four-argument constructor: checks source, target, factor and rate
      type for null, in that order. */
  function NewRate<C, T>(rateType: Option<T>, source: Option<C>, target: Option<C>,
                         factor: Option<real>): (r: Outcome<C, T>)
    ensures r.Ok? <==> RequiredPresent(rateType, source, target, factor)
    ensures source.None? ==> r == Err(NullSource)
    ensures source.Some? && target.None? ==> r == Err(NullTarget)
    ensures source.Some? && target.Some? && factor.None? ==> r == Err(NullFactor)
    ensures source.Some? && target.Some? && factor.Some? && rateType.None? ==> r == Err(NullRateType)
    ensures r.Ok? ==> CarriesRequired(r.value, rateType, source, target, factor)
    ensures r.Ok? ==> JustConstructed(r.value)
    ensures r.Ok? ==> !IsDerived(r.value) && GetExchangeRateChain(r.value) == [r.value]
  {
    if source.None? then Err(NullSource)
    else if target.None? then Err(NullTarget)
    else if factor.None? then Err(NullFactor)
    else if rateType.None? then Err(NullRateType)
    else Ok(Rate(rateType.value, source.value, target.value, factor.value,
                 None, None, None, SelfChain, false))
  }

  /** The five-argument constructor: the four-argument checks, then a chain
      that must not be null. */
  function NewRateWithChain<C, T>(rateType: Option<T>, source: Option<C>, target: Option<C>,
                                  factor: Option<real>, chain: Option<seq<Rate<C, T>>>): (r: Outcome<C, T>)
    ensures r.Ok? <==> RequiredPresent(rateType, source, target, factor) && chain.Some?
    ensures !RequiredPresent(rateType, source, target, factor) ==> r == NewRate(rateType, source, target, factor)
    ensures RequiredPresent(rateType, source, target, factor) && chain.None? ==> r == Err(NullChain)
    ensures r.Ok? ==> CarriesRequired(r.value, rateType, source, target, factor)
    ensures r.Ok? ==> GetExchangeRateChain(r.value) == chain.value
    ensures r.Ok? ==> (IsDerived(r.value) <==> |chain.value| > 1)
    ensures r.Ok? ==> r.value.validFrom.None? && r.value.validUntil.None?
                      && r.value.provider.None? && !r.value.readOnly
  {
    var rate :- NewRate(rateType, source, target, factor);
    SetExchangeRateChain(rate, chain)
  }

  /** The seven-argument constructor (the one the builder uses): a null
      chain keeps the self chain; the bounds are then set on the still
      writable rate. */
  function NewRateWithChainAndValidity<C, T>(rateType: Option<T>, source: Option<C>, target: Option<C>,
                                             factor: Option<real>, chain: Option<seq<Rate<C, T>>>,
                                             validFrom: Option<int>, validUntil: Option<int>): (r: Outcome<C, T>)
    ensures r.Ok? <==> RequiredPresent(rateType, source, target, factor)
    ensures r.Err? ==> r == NewRate(rateType, source, target, factor)
    ensures r.Ok? ==> CarriesRequired(r.value, rateType, source, target, factor)
    ensures r.Ok? ==> r.value.validFrom == validFrom && r.value.validUntil == validUntil
    ensures r.Ok? ==> r.value.provider.None? && !r.value.readOnly
    ensures r.Ok? && chain.None? ==> r.value.chain.SelfChain? && !IsDerived(r.value)
    ensures r.Ok? && chain.Some? ==> GetExchangeRateChain(r.value) == chain.value
  {
    var rate :- NewRate(rateType, source, target, factor);
    // The fresh rate is writable and a present chain is accepted, so none
    // of the calls below can throw.
    var chained := if chain.Some? then SetExchangeRateChain(rate, chain).value else rate;
    var bounded := SetValidFrom(chained, validFrom).value;
    SetValidUntil(bounded, validUntil)
  }

  /** The six-argument constructor: the self chain and the given bounds. */
  function NewRateWithValidity<C, T>(rateType: Option<T>, source: Option<C>, target: Option<C>,
                                     factor: Option<real>, validFrom: Option<int>,
                                     validUntil: Option<int>): (r: Outcome<C, T>)
    ensures r.Ok? <==> RequiredPresent(rateType, source, target, factor)
    ensures r.Err? ==> r == NewRate(rateType, source, target, factor)
    ensures r.Ok? ==> CarriesRequired(r.value, rateType, source, target, factor)
    ensures r.Ok? ==> r.value.validFrom == validFrom && r.value.validUntil == validUntil
    ensures r.Ok? ==> r.value.provider.None? && !r.value.readOnly
    ensures r.Ok? ==> r.value.chain.SelfChain? && !IsDerived(r.value)
  {
    var rate :- NewRate(rateType, source, target, factor);
    var bounded := SetValidFrom(rate, validFrom).value;
    SetValidUntil(bounded, validUntil)
  }

  /** The overloads differ only in which optional fields they fill in. */
  lemma ConstructorsAgree<C, T>(rateType: Option<T>, source: Option<C>, target: Option<C>,
                                factor: Option<real>, chain: seq<Rate<C, T>>,
                                validFrom: Option<int>, validUntil: Option<int>)
    ensures NewRate(rateType, source, target, factor)
            == NewRateWithChainAndValidity(rateType, source, target, factor, None, None, None)
    ensures NewRateWithValidity(rateType, source, target, factor, validFrom, validUntil)
            == NewRateWithChainAndValidity(rateType, source, target, factor, None, validFrom, validUntil)
    ensures NewRateWithChain(rateType, source, target, factor, Some(chain))
            == NewRateWithChainAndValidity(rateType, source, target, factor, Some(chain), None, None)
  {
  }

  // ---------------------------------------------------------------- ordering

  /** `compareTo`: a null other sorts after this rate; otherwise the rate
      types decide, and on a tie the providers, where exactly one absent
      provider makes `String.compareTo` dereference null. */
  function CompareTo<C, T>(order: (T, T) -> int, rate: Rate<C, T>,
                           other: Option<Rate<C, T>>): (r: Result<int, RateError>)
    ensures other.None? ==> r == Ok(-1)
    ensures other.Some? && order(rate.rateType, other.value.rateType) != 0
            ==> r == Ok(order(rate.rateType, other.value.rateType))
    ensures other.Some? && order(rate.rateType, other.value.rateType) == 0
            ==> (r.Err? <==> rate.provider.Some? != other.value.provider.Some?)
    ensures r.Err? ==> r.error == NullDereference
    ensures (other.Some? && order(rate.rateType, other.value.rateType) == 0
             && rate.provider.None? && other.value.provider.None?) ==> r == Ok(0)
    ensures (other.Some? && order(rate.rateType, other.value.rateType) == 0
             && rate.provider.Some? && other.value.provider.Some?)
            ==> && r.Ok?
                && (r.value < 0 <==> LexBefore(rate.provider.value, other.value.provider.value))
                && (r.value == 0 <==> rate.provider == other.value.provider)
  {
    match other
    case None => Ok(-1)
    case Some(o) =>
      var compare := order(rate.rateType, o.rateType);
      if compare != 0 then Ok(compare)
      else if rate.provider.Some? then
        if o.provider.Some? then
          CompareStringsIsLexicographic(rate.provider.value, o.provider.value);
          Ok(CompareStrings(rate.provider.value, o.provider.value))
        else Err(NullDereference)
      else if o.provider.Some? then Err(NullDereference)
      else Ok(0)
  }

  lemma CompareToReflexive<C, T(!new)>(order: (T, T) -> int, rate: Rate<C, T>)
    requires IsComparator(order)
    ensures CompareTo(order, rate, Some(rate)) == Ok(0)
  {
    assert Sign(order(rate.rateType, rate.rateType)) == -Sign(order(rate.rateType, rate.rateType));
  }

  /** Swapping the operands fails in the same cases and flips the sign. */
  lemma CompareToAntisymmetric<C, T(!new)>(order: (T, T) -> int, x: Rate<C, T>, y: Rate<C, T>)
    requires IsComparator(order)
    ensures CompareTo(order, x, Some(y)).Err? <==> CompareTo(order, y, Some(x)).Err?
    ensures CompareTo(order, x, Some(y)).Ok?
            ==> Sign(CompareTo(order, x, Some(y)).value) == -Sign(CompareTo(order, y, Some(x)).value)
  {
    assert Sign(order(x.rateType, y.rateType)) == -Sign(order(y.rateType, x.rateType));
    if x.provider.Some? && y.provider.Some? {
      CompareStringsAntisymmetric(x.provider.value, y.provider.value);
    }
  }

  lemma CompareToTransitive<C, T(!new)>(order: (T, T) -> int, x: Rate<C, T>, y: Rate<C, T>, z: Rate<C, T>)
    requires IsComparator(order)
    requires CompareTo(order, x, Some(y)).Ok? && CompareTo(order, x, Some(y)).value > 0
    requires CompareTo(order, y, Some(z)).Ok? && CompareTo(order, y, Some(z)).value > 0
    ensures CompareTo(order, x, Some(z)).Ok? && CompareTo(order, x, Some(z)).value > 0
  {
    var cxy, cyz, cxz := order(x.rateType, y.rateType), order(y.rateType, z.rateType), order(x.rateType, z.rateType);
    assert Sign(cxz) == -Sign(order(z.rateType, x.rateType));
    assert Sign(order(y.rateType, x.rateType)) == -Sign(cxy);
    if cxy > 0 && cyz > 0 {
    } else if cxy > 0 {
      assert Sign(order(y.rateType, x.rateType)) == Sign(order(z.rateType, x.rateType));
    } else if cyz > 0 {
      assert Sign(cxz) == Sign(cyz);
    } else {
      assert Sign(cxz) == Sign(cyz);
      var px, py, pz := x.provider.value, y.provider.value, z.provider.value;
      CompareStringsAntisymmetric(px, py);
      CompareStringsAntisymmetric(py, pz);
      CompareStringsAntisymmetric(px, pz);
      CompareStringsTransitive(pz, py, px);
    }
  }

  // ----------------------------------------------------- lifetime of a rate

  /** The calls that can change a rate after construction. */
  datatype Mutation<C, T> =
    | SetProviderCall(provider: Option<string>)
    | SetValidFromCall(validFrom: Option<int>)
    | SetValidUntilCall(validUntil: Option<int>)
    | SetChainCall(chain: Option<seq<Rate<C, T>>>)
    | SetReadOnlyCall

  /** The object after a call: a call that throws leaves it as it was. */
  function StateAfter<C, T>(rate: Rate<C, T>, outcome: Outcome<C, T>): Rate<C, T> {
    if outcome.Ok? then outcome.value else rate
  }

  function Apply<C, T>(rate: Rate<C, T>, m: Mutation<C, T>): Rate<C, T> {
    match m
    case SetProviderCall(p) => StateAfter(rate, SetProvider(rate, p))
    case SetValidFromCall(t) => StateAfter(rate, SetValidFrom(rate, t))
    case SetValidUntilCall(t) => StateAfter(rate, SetValidUntil(rate, t))
    case SetChainCall(c) => StateAfter(rate, SetExchangeRateChain(rate, c))
    case SetReadOnlyCall => Freeze(rate)
  }

  function ApplyAll<C, T>(rate: Rate<C, T>, calls: seq<Mutation<C, T>>): Rate<C, T>
    decreases |calls|
  {
    if |calls| == 0 then rate else ApplyAll(Apply(rate, calls[0]), calls[1..])
  }

  /** Source, target, factor and rate type survive every sequence of calls. */
  lemma {:induction false} FinalFieldsNeverChange<C, T>(rate: Rate<C, T>, calls: seq<Mutation<C, T>>)
    ensures SameFinalFields(ApplyAll(rate, calls), rate)
    decreases |calls|
  {
    if |calls| > 0 {
      FinalFieldsNeverChange(Apply(rate, calls[0]), calls[1..]);
    }
  }

  /** Once frozen, a rate stays frozen and keeps its provider and validity
      window whatever is called; only the chain can still be replaced. */
  lemma {:induction false} FrozenRateChangesOnlyChain<C, T>(rate: Rate<C, T>, calls: seq<Mutation<C, T>>)
    requires rate.readOnly
    ensures ApplyAll(rate, calls).(chain := rate.chain) == rate
    decreases |calls|
  {
    if |calls| > 0 {
      var next := Apply(rate, calls[0]);
      assert next.(chain := rate.chain) == rate;
      FrozenRateChangesOnlyChain(next, calls[1..]);
      assert ApplyAll(rate, calls) == ApplyAll(next, calls[1..]);
    }
  }

  /** `setExchangeRateChain` is not guarded: a frozen rate still takes a
      new chain, and may become derived. */
  lemma FrozenRateAcceptsChain<C, T>(rate: Rate<C, T>, chain: seq<Rate<C, T>>)
    requires rate.readOnly && |chain| > 1
    ensures IsDerived(Apply(rate, SetChainCall(Some(chain))))
    ensures SetProvider(rate, rate.provider).Err?
  {
  }

  // ------------------------------------------------------------ chain copies

  /** `setExchangeRateChain(arr)` with `arr` a reference into `heap`. */
  function SetExchangeRateChainFromArray<C, T>(rate: Rate<C, T>, heap: Heap<Rate<C, T>>,
                                               arr: Option<ArrayRef>): (r: Outcome<C, T>)
    requires arr.Some? ==> arr.value in heap.contents
    ensures r.Ok? <==> arr.Some?
    ensures r.Ok? ==> GetExchangeRateChain(r.value) == heap.contents[arr.value]
  {
    SetExchangeRateChain(rate, if arr.Some? then Some(heap.contents[arr.value]) else None)
  }

  /** `getExchangeRateChain()`: a newly allocated array with the chain. */
  function GetExchangeRateChainArray<C, T>(rate: Rate<C, T>, heap: Heap<Rate<C, T>>): (res: (Heap<Rate<C, T>>, ArrayRef))
    requires heap.Valid()
    ensures res.1 !in heap.contents
    ensures res.0.Valid()
    ensures res.0.contents == heap.contents[res.1 := GetExchangeRateChain(rate)]
  {
    heap.Alloc(GetExchangeRateChain(rate))
  }

  /** A write to the array handed to the setter, after the call, leaves the
      stored chain as it was at the call. The rate keeps its chain as a
      value, so this follows from the representation rather than from a
      modelled `clone()`. */
  lemma ChainInputIsCopied<C, T>(rate: Rate<C, T>, heap: Heap<Rate<C, T>>, arr: ArrayRef,
                                 i: nat, v: Rate<C, T>)
    requires arr in heap.contents && i < |heap.contents[arr]|
    ensures var stored := SetExchangeRateChainFromArray(rate, heap, Some(arr)).value;
            var heap' := heap.Write(arr, i, v);
            heap'.contents[arr][i] == v
            && GetExchangeRateChain(stored) == heap.contents[arr]
  {
  }

  /** A write to the array the getter returned disturbs no array the caller
      held before (in particular not one given to the setter) and not the
      rate's chain. */
  lemma ChainOutputIsCopied<C, T>(rate: Rate<C, T>, heap: Heap<Rate<C, T>>, i: nat, v: Rate<C, T>)
    requires heap.Valid() && i < |GetExchangeRateChain(rate)|
    ensures var (heap1, out) := GetExchangeRateChainArray(rate, heap);
            var heap2 := heap1.Write(out, i, v);
            && heap2.contents[out][i] == v
            && (forall a :: a in heap.contents ==> a in heap2.contents && heap2.contents[a] == heap.contents[a])
            && GetExchangeRateChainArray(rate, heap2).0.contents[GetExchangeRateChainArray(rate, heap2).1]
               == GetExchangeRateChain(rate)
  {
  }

  // ---------------------------------------------------------------- validity

  /** As written, validity never ends: once valid, valid at every later time. */
  lemma IsValidNeverExpires<C, T>(rate: Rate<C, T>, now: int, later: int)
    requires IsValid(rate, now) && now <= later
    ensures IsValid(rate, later)
  {
  }

  /** The lower bound plays no part in either validity test: a call to
      `setValidFrom`, whether it succeeds or is refused, never changes the
      answer. */
  lemma ValidityIgnoresValidFrom<C, T>(rate: Rate<C, T>, validFrom: Option<int>, now: int)
    ensures IsValid(Apply(rate, SetValidFromCall(validFrom)), now) == IsValid(rate, now)
    ensures IsValidIntended(Apply(rate, SetValidFromCall(validFrom)), now) == IsValidIntended(rate, now)
  {
  }

  /** As written, a rate whose upper bound has passed counts as valid and
      one whose upper bound is still ahead does not. */
  lemma IsValidInvertsExpiry<C, T>(rate: Rate<C, T>, now: int)
    requires rate.validUntil.Some?
    ensures rate.validUntil.value < now ==> IsValid(rate, now) && !IsValidIntended(rate, now)
    ensures now < rate.validUntil.value ==> !IsValid(rate, now) && IsValidIntended(rate, now)
  {
  }

  /** The intended test: a rate is valid up to, and not at or after, its
      upper bound, and having expired it stays expired. */
  lemma IntendedValidityExpires<C, T>(rate: Rate<C, T>, now: int, later: int)
    requires now <= later
    ensures IsValidIntended(rate, later) ==> IsValidIntended(rate, now)
    ensures rate.validUntil.Some? ==> !IsValidIntended(rate, rate.validUntil.value)
    ensures rate.validUntil.None? ==> IsValidIntended(rate, now)
  {
  }
}
