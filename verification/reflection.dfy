/** The null reference of the source, made explicit. */
module Nullables {

  /** `None` stands for a C# `null`. */
  datatype Option<+T> = None | Some(value: T)
}

/**
 * What the compiler learns about an example type by reflection: the type
 * tags, the feature descriptors and the two inspection services it calls.
 */
module Reflection {
  import opened Nullables

  /** A .NET type, identified by its full name. */
  datatype TypeTag = TypeTag(fullName: string)

  /**
   * One feature of an example type. `O` is the universe of runtime objects:
   * examples, action-dependent elements and feature values alike.
   *
   * The descriptor is a class because the compiler tells features apart by
   * reference, not by value. Its fields never change after construction.
   * The two factories, which in the source build expression trees over the
   * example parameter, are given here by what those trees compute.
   */
  class FeatureExpression<O> {
    /** The property name the feature was discovered under. */
    const Name: string
    /** The declared type of the property. */
    const FeatureType: TypeTag
    /** Reads the feature's value out of an example. */
    const ValueExpressionFactory: O -> O
    /** The checks that must all hold for the value to be read, in order. */
    const ValueValidExpressionFactories: seq<O -> bool>

    constructor (name: string, featureType: TypeTag, value: O -> O, valid: seq<O -> bool>)
      ensures Name == name && FeatureType == featureType
      ensures ValueExpressionFactory == value && ValueValidExpressionFactories == valid
    {
      Name := name;
      FeatureType := featureType;
      ValueExpressionFactory := value;
      ValueValidExpressionFactories := valid;
    }
  }

  /**
   * The reflection services the compiler calls and whose code is not part
   * of this model: `InspectionHelper.GetEnumerableElementType` (None when
   * the type is neither an array nor an `IEnumerable<>`) and
   * `AnnotationJsonInspector.ExtractFeatures`.
   */
  datatype Inspector<O> = Inspector(
    GetEnumerableElementType: TypeTag -> Option<TypeTag>,
    ExtractFeatures: TypeTag -> seq<FeatureExpression<O>>)
}
