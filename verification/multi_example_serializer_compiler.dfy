/**
 * The multi-example ("action-dependent features") serializer compiler: it
 * recognises an example type whose features include the reserved `_multi`
 * collection, splits that feature off from the shared ones, and wires a
 * shared single-example compiler, an action-dependent single-example
 * compiler and the collection accessor into one serializer compiler.
 */
module MultiExampleSerializerCompiler {
  import opened Nullables
  import opened Reflection
  import opened AccessorExpression

  /** The reserved property name of the action-dependent collection. */
  const MultiProperty: string := "_multi"

  /** The engine settings the compiler reads. */
  datatype Settings = Settings(CustomFeaturizer: Option<seq<TypeTag>>, EnableStringExampleGeneration: bool)

  /**
   * A single-example serializer compiler, given by the arguments it was
   * built from (its own compilation is not part of this model).
   */
  datatype SingleExampleSerializerCompiler<O> = SingleExampleSerializerCompiler(
    exampleType: TypeTag,
    features: seq<FeatureExpression<O>>,
    customFeaturizer: Option<seq<TypeTag>>,
    disableStringExampleGeneration: bool)
  {
    /** The serializer this compiler creates for the engine handle `vw`. */
    function Create<W>(vw: W): SingleExampleSerializer<O, W> {
      SingleExampleSerializer(this, vw)
    }
  }

  /** A single-example serializer, bound to an engine handle. */
  datatype SingleExampleSerializer<O, W> = SingleExampleSerializer(compiler: SingleExampleSerializerCompiler<O>, vw: W)

  /** The exceptions compilation can raise. */
  datatype CompileError =
    | ArgumentError(actualType: TypeTag)  // the `_multi` property is neither an array nor an `IEnumerable<>`
    | InvalidOperation                    // `First()` on a `_multi` feature without validity checks
    | TargetInvocation(inner: CompileError)  // raised by a constructor run through `Activator.CreateInstance`

  /** A value, or the exception that was thrown instead. */
  datatype Result<+T> = Success(value: T) | Failure(error: CompileError)

  /**
   * The compiled triple for an outer example type and its action-dependent
   * element type: the shared compiler (null when no shared feature exists),
   * the action-dependent compiler and the compiled collection accessor.
   */
  datatype MultiExampleSerializerCompilerImpl<!O> = MultiExampleSerializerCompilerImpl(
    exampleType: TypeTag,
    adfType: TypeTag,
    sharedSerializerCompiler: Option<SingleExampleSerializerCompiler<O>>,
    adfSerializerComputer: SingleExampleSerializerCompiler<O>,
    adfAccessor: Accessor<O>)

  /** The runtime serializer that `Create` hands back. */
  datatype MultiExampleSerializer<!O, W> = MultiExampleSerializer(
    vw: W,
    sharedSerializer: Option<SingleExampleSerializer<O, W>>,
    adfSerializer: SingleExampleSerializer<O, W>,
    adfAccessor: Accessor<O>)

  /** `k` is the position of the first feature named `name`. */
  predicate IsFirstNamed<O>(features: seq<FeatureExpression<O>>, name: string, k: int) {
    && 0 <= k < |features|
    && features[k].Name == name
    && forall j :: 0 <= j < k ==> features[j].Name != name
  }

  /** `features.FirstOrDefault(fe => fe.Name == name)`. */
  function FirstOrDefault<O>(features: seq<FeatureExpression<O>>, name: string): (r: Option<FeatureExpression<O>>)
    ensures r.None? <==> forall i :: 0 <= i < |features| ==> features[i].Name != name
    ensures r.Some? ==> exists k :: IsFirstNamed(features, name, k) && features[k] == r.value
  {
    if |features| == 0 then None
    else if features[0].Name == name then
      assert IsFirstNamed(features, name, 0);
      Some(features[0])
    else
      var r := FirstOrDefault(features[1..], name);
      assert forall k :: IsFirstNamed(features[1..], name, k) ==> IsFirstNamed(features, name, k + 1);
      r
  }

  /** `features.Where(fe => fe != removed).ToList()`; `!=` compares references. */
  function Without<O>(features: seq<FeatureExpression<O>>, removed: FeatureExpression<O>): (r: seq<FeatureExpression<O>>)
    ensures |r| <= |features| && removed !in r
  {
    if |features| == 0 then []
    else
      var rest := Without(features[1..], removed);
      if features[0] != removed then [features[0]] + rest else rest
  }

  /** The result holds exactly the listed features other than the removed object. */
  lemma {:induction false} WithoutMembers<O>(features: seq<FeatureExpression<O>>, removed: FeatureExpression<O>)
    ensures forall i :: 0 <= i < |Without(features, removed)| ==>
              Without(features, removed)[i] in features && Without(features, removed)[i] != removed
    ensures forall i :: 0 <= i < |features| && features[i] != removed ==> features[i] in Without(features, removed)
  {
    if |features| > 0 {
      WithoutMembers(features[1..], removed);
    }
  }

  /** Nothing remains exactly when every listed feature is the removed object. */
  lemma {:induction false} WithoutEmpty<O>(features: seq<FeatureExpression<O>>, removed: FeatureExpression<O>)
    ensures |Without(features, removed)| == 0 <==> forall i :: 0 <= i < |features| ==> features[i] == removed
  {
    if |features| > 0 {
      WithoutEmpty(features[1..], removed);
      assert forall i :: 1 <= i < |features| ==> features[i] == features[1..][i - 1];
    }
  }

  /** Removing a feature that is not in the list changes nothing. */
  lemma {:induction false} WithoutAbsent<O>(features: seq<FeatureExpression<O>>, removed: FeatureExpression<O>)
    requires removed !in features
    ensures Without(features, removed) == features
  {
    if |features| > 0 {
      assert features[0] != removed;
      assert removed !in features[1..];
      WithoutAbsent(features[1..], removed);
      assert features == [features[0]] + features[1..];
    }
  }

  /**
   * Every occurrence of the removed object goes and every other entry stays,
   * as often as it occurred.
   */
  lemma {:induction false} WithoutMultiset<O>(features: seq<FeatureExpression<O>>, removed: FeatureExpression<O>)
    ensures multiset(Without(features, removed)) == multiset(features)[removed := 0]
  {
    if |features| > 0 {
      var head, tail := features[0], features[1..];
      WithoutMultiset(tail, removed);
      var rest := Without(tail, removed);
      assert features == [head] + tail;
      var m := multiset(features);
      assert m == multiset{head} + multiset(tail);
      var w := if head != removed then [head] + rest else rest;
      assert Without(features, removed) == w;
      assert multiset(w) == (if head != removed then multiset{head} else multiset{}) + multiset(rest);
      forall f
        ensures multiset(w)[f] == m[removed := 0][f]
      {
      }
      assert multiset(w) == m[removed := 0];
    }
  }

  /**
   * When the removed object occurs once, at `k`, the remaining features are
   * the others in their original relative order.
   */
  lemma {:induction false} WithoutSingleOccurrence<O>(features: seq<FeatureExpression<O>>, k: nat)
    requires k < |features|
    requires forall j :: 0 <= j < |features| && j != k ==> features[j] != features[k]
    ensures Without(features, features[k]) == features[..k] + features[k + 1..]
  {
    if k == 0 {
      WithoutAbsent(features[1..], features[0]);
    } else {
      WithoutSingleOccurrence(features[1..], k - 1);
      assert features[1..][k - 1] == features[k];
      assert features[..k] + features[k + 1..] == [features[0]] + (features[1..][..k - 1] + features[1..][k..]);
    }
  }

  /**
   * The filter works entry by entry: a lone entry `f` stays exactly when it is not
   * the removed object, and filtering a concatenation filters each part and
   * keeps the parts in order. So the remaining entries keep their relative
   * order, however often the removed object is listed.
   */
  lemma {:induction false} WithoutKeepsOrder<O>(
    f: FeatureExpression<O>, a: seq<FeatureExpression<O>>, b: seq<FeatureExpression<O>>, removed: FeatureExpression<O>)
    ensures Without([f], removed) == if f != removed then [f] else []
    ensures Without(a + b, removed) == Without(a, removed) + Without(b, removed)
    decreases |a|
  {
    assert [f][1..] == [];
    if |a| == 0 {
      assert a + b == b;
    } else {
      WithoutKeepsOrder(f, a[1..], b, removed);
      assert (a + b)[0] == a[0];
      assert (a + b)[1..] == a[1..] + b;
    }
  }

  /**
   * What the constructor of the compiled triple promises about its result,
   * for the outer type `exampleType`, the element type `adfType` and the
   * selected `multiFeature`.
   */
  ghost predicate Assembled<O(!new)>(
    c: MultiExampleSerializerCompilerImpl<O>, settings: Settings, exampleType: TypeTag, adfType: TypeTag,
    allFeatures: seq<FeatureExpression<O>>, multiFeature: FeatureExpression<O>, inspector: Inspector<O>)
  {
    && c.exampleType == exampleType
    && c.adfType == adfType
    // no shared compiler exactly when nothing but the multi feature is left
    && (c.sharedSerializerCompiler.None? <==> forall i :: 0 <= i < |allFeatures| ==> allFeatures[i] == multiFeature)
    && (c.sharedSerializerCompiler.Some? ==>
          c.sharedSerializerCompiler.value == SingleExampleSerializerCompiler(
            exampleType, Without(allFeatures, multiFeature),
            settings.CustomFeaturizer, !settings.EnableStringExampleGeneration))
    && c.adfSerializerComputer == SingleExampleSerializerCompiler(
         adfType, inspector.ExtractFeatures(adfType),
         settings.CustomFeaturizer, !settings.EnableStringExampleGeneration)
    // the accessor is the one built from the multi feature's checks and value
    && BuildAccessor(multiFeature.ValueValidExpressionFactories, multiFeature.ValueExpressionFactory).Some?
    && c.adfAccessor == BuildAccessor(multiFeature.ValueValidExpressionFactories, multiFeature.ValueExpressionFactory).value
    && c.adfAccessor.Valid()
    // so it yields the collection when every validity check holds, null otherwise
    && (forall x :: c.adfAccessor.Invoke(x).0 ==
          (if AllValid(multiFeature.ValueValidExpressionFactories, x)
           then Some(multiFeature.ValueExpressionFactory(x)) else None))
  }

  /**
   * The constructor of the compiled triple. It throws (from `First()`) when
   * the multi feature has no validity check at all.
   */
  function NewImpl<O(!new)>(
    settings: Settings, exampleType: TypeTag, adfType: TypeTag,
    allFeatures: seq<FeatureExpression<O>>, multiFeature: FeatureExpression<O>, inspector: Inspector<O>)
    : (r: Result<MultiExampleSerializerCompilerImpl<O>>)
    ensures r.Failure? <==> |multiFeature.ValueValidExpressionFactories| == 0
    ensures r.Failure? ==> r.error == InvalidOperation
    ensures r.Success? ==> Assembled(r.value, settings, exampleType, adfType, allFeatures, multiFeature, inspector)
  {
    var nonMultiFeatures := Without(allFeatures, multiFeature);
    WithoutEmpty(allFeatures, multiFeature);
    var sharedSerializerCompiler :=
      if |nonMultiFeatures| == 0 then None
      else Some(SingleExampleSerializerCompiler(
             exampleType, nonMultiFeatures, settings.CustomFeaturizer, !settings.EnableStringExampleGeneration));
    var adfSerializerComputer := SingleExampleSerializerCompiler(
      adfType, inspector.ExtractFeatures(adfType), settings.CustomFeaturizer, !settings.EnableStringExampleGeneration);
    match BuildAccessor(multiFeature.ValueValidExpressionFactories, multiFeature.ValueExpressionFactory)
    case None => Failure(InvalidOperation)
    case Some(accessor) =>
      var compiled := MultiExampleSerializerCompilerImpl(
        exampleType, adfType, sharedSerializerCompiler, adfSerializerComputer, accessor);
      assert forall x :: (compiled.adfAccessor.Invoke(x).0 ==
        (if AllValid(multiFeature.ValueValidExpressionFactories, x)
         then Some(multiFeature.ValueExpressionFactory(x)) else None))
      by {
        forall x {
          AccessorSemantics(multiFeature.ValueValidExpressionFactories, multiFeature.ValueExpressionFactory, x);
        }
      }
      Success(compiled)
  }

  /**
   * `TryCreate<TExample>`: null when no feature carries the reserved name;
   * otherwise the compiled triple for the first such feature, or the
   * exception raised on the way. The constructor runs through
   * `Activator.CreateInstance`, which wraps what it throws.
   */
  function TryCreate<O(!new)>(settings: Settings, exampleType: TypeTag, allFeatures: seq<FeatureExpression<O>>, inspector: Inspector<O>)
    : (r: Result<Option<MultiExampleSerializerCompilerImpl<O>>>)
    ensures (r.Success? && r.value.None?) <==> forall i :: 0 <= i < |allFeatures| ==> allFeatures[i].Name != MultiProperty
    ensures (r.Failure? && r.error.ArgumentError?) <==>
              exists k :: IsFirstNamed(allFeatures, MultiProperty, k)
                && inspector.GetEnumerableElementType(allFeatures[k].FeatureType).None?
    ensures (r.Failure? && r.error.ArgumentError?) ==>
              exists k :: IsFirstNamed(allFeatures, MultiProperty, k) && r.error.actualType == allFeatures[k].FeatureType
    ensures (r.Failure? && r.error == TargetInvocation(InvalidOperation)) <==>
              exists k :: IsFirstNamed(allFeatures, MultiProperty, k)
                && inspector.GetEnumerableElementType(allFeatures[k].FeatureType).Some?
                && |allFeatures[k].ValueValidExpressionFactories| == 0
    ensures r.Failure? ==> r.error.ArgumentError? || r.error == TargetInvocation(InvalidOperation)
    ensures (r.Success? && r.value.Some?) ==>
              exists k :: IsFirstNamed(allFeatures, MultiProperty, k)
                && inspector.GetEnumerableElementType(allFeatures[k].FeatureType) == Some(r.value.value.adfType)
                && Assembled(r.value.value, settings, exampleType, r.value.value.adfType, allFeatures, allFeatures[k], inspector)
  {
    match FirstOrDefault(allFeatures, MultiProperty)
    case None => Success(None)
    case Some(multiFeature) =>
      match inspector.GetEnumerableElementType(multiFeature.FeatureType)
      case None => Failure(ArgumentError(multiFeature.FeatureType))
      case Some(adfType) =>
        match NewImpl(settings, exampleType, adfType, allFeatures, multiFeature, inspector)
        case Failure(e) => Failure(TargetInvocation(e))
        case Success(compiled) => Success(Some(compiled))
  }

  /**
   * `Create`: the runtime serializer built from the compiled triple. It has a
   * shared serializer exactly when the triple has a shared compiler, and
   * always an action-dependent serializer and the same accessor.
   */
  function Create<O, W>(c: MultiExampleSerializerCompilerImpl<O>, vw: W): (s: MultiExampleSerializer<O, W>)
    ensures s.vw == vw
    ensures s.sharedSerializer.None? <==> c.sharedSerializerCompiler.None?
    ensures s.sharedSerializer.Some? ==> s.sharedSerializer.value == c.sharedSerializerCompiler.value.Create(vw)
    ensures s.adfSerializer == c.adfSerializerComputer.Create(vw)
    ensures s.adfAccessor == c.adfAccessor
  {
    MultiExampleSerializer(
      vw,
      if c.sharedSerializerCompiler.Some? then Some(c.sharedSerializerCompiler.value.Create(vw)) else None,
      c.adfSerializerComputer.Create(vw),
      c.adfAccessor)
  }

  /**
   * When the multi feature occurs only at `k`, the compiled triple for it has no shared compiler exactly when that feature is the only one,
   * and otherwise a shared compiler over every other feature in its
   * original relative order.
   */
  lemma SharedFeaturesKeepOrder<O(!new)>(
    c: MultiExampleSerializerCompilerImpl<O>, settings: Settings, exampleType: TypeTag, adfType: TypeTag,
    allFeatures: seq<FeatureExpression<O>>, k: nat, inspector: Inspector<O>)
    requires k < |allFeatures|
    requires forall j :: 0 <= j < |allFeatures| && j != k ==> allFeatures[j] != allFeatures[k]
    requires Assembled(c, settings, exampleType, adfType, allFeatures, allFeatures[k], inspector)
    ensures c.sharedSerializerCompiler.None? <==> |allFeatures| == 1
    ensures c.sharedSerializerCompiler.Some? ==>
              c.sharedSerializerCompiler.value.features == allFeatures[..k] + allFeatures[k + 1..]
  {
    WithoutSingleOccurrence(allFeatures, k);
    if |allFeatures| > 1 {
      var other := if k == 0 then 1 else 0;
      assert allFeatures[other] != allFeatures[k];
    }
  }

  /**
   * What the runtime serializer made from the compiled triple `c` holds, when
   * `multiFeature` was selected among `allFeatures`.
   */
  ghost predicate Serves<O(!new), W>(
    s: MultiExampleSerializer<O, W>, settings: Settings, exampleType: TypeTag,
    allFeatures: seq<FeatureExpression<O>>, multiFeature: FeatureExpression<O>, inspector: Inspector<O>, vw: W)
  {
    && (s.sharedSerializer.None? <==> forall i :: 0 <= i < |allFeatures| ==> allFeatures[i] == multiFeature)
    && (s.sharedSerializer.Some? ==>
          && s.sharedSerializer.value.vw == vw
          && s.sharedSerializer.value.compiler.exampleType == exampleType
          && s.sharedSerializer.value.compiler.features == Without(allFeatures, multiFeature)
          && multiFeature !in s.sharedSerializer.value.compiler.features
          && s.sharedSerializer.value.compiler.customFeaturizer == settings.CustomFeaturizer
          && s.sharedSerializer.value.compiler.disableStringExampleGeneration == !settings.EnableStringExampleGeneration)
    && s.adfSerializer.vw == vw
    && Some(s.adfSerializer.compiler.exampleType) == inspector.GetEnumerableElementType(multiFeature.FeatureType)
    && s.adfSerializer.compiler.features == inspector.ExtractFeatures(s.adfSerializer.compiler.exampleType)
    && s.adfSerializer.compiler.customFeaturizer == settings.CustomFeaturizer
    && s.adfSerializer.compiler.disableStringExampleGeneration == !settings.EnableStringExampleGeneration
    && BuildAccessor(multiFeature.ValueValidExpressionFactories, multiFeature.ValueExpressionFactory).Some?
    && s.adfAccessor == BuildAccessor(multiFeature.ValueValidExpressionFactories, multiFeature.ValueExpressionFactory).value
    && s.adfAccessor.Valid()
    && forall x :: s.adfAccessor.Invoke(x).0 ==
         (if AllValid(multiFeature.ValueValidExpressionFactories, x)
          then Some(multiFeature.ValueExpressionFactory(x)) else None)
  }

  /**
   * Compiling and then creating, end to end: for an example type with a
   * `_multi` feature, the runtime serializer has a shared serializer exactly
   * when some other feature exists and then holds exactly the other features,
   * its action-dependent serializer is built from the element type's own
   * features, both serializers see the same featurizer and the same code
   * generation flag, and the accessor is the one built from the selected
   * feature, yielding the collection when every validity check holds and
   * null otherwise.
   */
  lemma CreateAfterTryCreate<O(!new), W>(
    settings: Settings, exampleType: TypeTag, allFeatures: seq<FeatureExpression<O>>, inspector: Inspector<O>, vw: W)
    requires TryCreate(settings, exampleType, allFeatures, inspector).Success?
    requires TryCreate(settings, exampleType, allFeatures, inspector).value.Some?
    ensures var c := TryCreate(settings, exampleType, allFeatures, inspector).value.value;
            exists k :: IsFirstNamed(allFeatures, MultiProperty, k)
              && Serves(Create(c, vw), settings, exampleType, allFeatures, allFeatures[k], inspector, vw)
  {
    var c := TryCreate(settings, exampleType, allFeatures, inspector).value.value;
    var k :| IsFirstNamed(allFeatures, MultiProperty, k)
             && inspector.GetEnumerableElementType(allFeatures[k].FeatureType) == Some(c.adfType)
             && Assembled(c, settings, exampleType, c.adfType, allFeatures, allFeatures[k], inspector);
    var s := Create(c, vw);
    assert s.sharedSerializer.Some? ==> s.sharedSerializer.value.compiler == c.sharedSerializerCompiler.value;
    assert Serves(s, settings, exampleType, allFeatures, allFeatures[k], inspector, vw);
  }

  /**
   * The accessor a compiled triple carries short-circuits: on every example
   * it runs check `j` only when checks `0..j-1` held, and reads the
   * collection only when every check held, as its last step.
   */
  lemma CompiledAccessorShortCircuits<O(!new)>(
    c: MultiExampleSerializerCompilerImpl<O>, settings: Settings, exampleType: TypeTag, adfType: TypeTag,
    allFeatures: seq<FeatureExpression<O>>, multiFeature: FeatureExpression<O>, inspector: Inspector<O>, x: O)
    requires Assembled(c, settings, exampleType, adfType, allFeatures, multiFeature, inspector)
    ensures EvaluatedValue in c.adfAccessor.Invoke(x).1 <==> AllValid(multiFeature.ValueValidExpressionFactories, x)
    ensures forall j :: 0 <= j < |multiFeature.ValueValidExpressionFactories| ==>
              (EvaluatedCheck(j) in c.adfAccessor.Invoke(x).1 <==> ValidBefore(multiFeature.ValueValidExpressionFactories, x, j))
    ensures var t := c.adfAccessor.Invoke(x).1;
            forall k :: 0 <= k < |t| ==> t[k] == EvaluatedCheck(k) || (k == |t| - 1 && t[k] == EvaluatedValue)
  {
    AccessorSemantics(multiFeature.ValueValidExpressionFactories, multiFeature.ValueExpressionFactory, x);
  }
}
