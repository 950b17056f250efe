# Multi-example serializer compiler of Vowpal Wabbit's C# binding

This project models the compiler that Vowpal Wabbit's C# binding uses for
multi-example ("action-dependent features", ADF) example types. An example
type may have a property under the reserved name `_multi` that holds a
collection of action-dependent records. When it does, the compiler does four
things:

1. It picks that feature. It uses the first one in list order if several carry the name.
2. It resolves the collection's element type. If the property is neither an array nor an `IEnumerable<>`, it throws an argument error.
3. It splits the feature list. The other features go to a shared single-example compiler, which is built only if any remain. The element type's own features go to an ADF single-example compiler, which is always built.
4. It builds the accessor `example => (check0 && check1 && ...) ? value(example) : null` from the `_multi` feature's validity checks and value expression.

`Create` then wires the two compilers' serializers and the accessor into one
runtime serializer.

The model has three files:

- `reflection.dfy` (modules `Nullables`, `Reflection`):
  - A C# `null` is modelled as `Option.None`.
  - A .NET type is a `TypeTag`.
  - A feature descriptor is the class `FeatureExpression`. It is a class so that the compiler's `fe != multiFeature` compares references, as in C#. Its fields are constants.
  - The two reflection services the compiler calls (`GetEnumerableElementType`, `ExtractFeatures`) are fields of an `Inspector` value passed in.
- `accessor_expression.dfy` (module `AccessorExpression`):
  - The accessor's expression tree is a `Condition` datatype, built by the same left fold as the source.
  - Its evaluation returns the value and the ordered list of steps it took: which checks ran, and whether the value was read. This makes the short-circuit behaviour something that can be stated.
  - The tree is proved to evaluate exactly as a left-to-right reference scan (`Scan`).
- `multi_example_serializer_compiler.dfy` (module `MultiExampleSerializerCompiler`):
  - `TryCreate`, the constructor of the compiled triple (`NewImpl`) and `Create`.
  - The feature partition (`Without`, the model of `Where(fe => fe != multiFeature)`) and the lemmas about it.
  - End-to-end lemmas.

Thrown exceptions are `Result.Failure`. `ArgumentError` is for the unsupported `_multi` type, thrown directly by `TryCreate`. `InvalidOperation` is for `First()` on an empty check list. It is thrown inside the constructor, which `TryCreate` runs through `Activator.CreateInstance`, so `TryCreate` reports it wrapped as `TargetInvocation(InvalidOperation)`. A `null` return is `Success(None)`.

Runtime objects (examples, ADF elements, feature values) form one abstract type `O`. The code being modelled handles them the same way, as untyped expressions.

Three behaviours of the code are worth stating outright:

- **Several `_multi` features.** The code does not check that only one feature is named `_multi`. It takes the first (`FirstOrDefault`); any later one stays among the shared features.
- **No validity checks.** With no validity check on the `_multi` feature, `First()` throws `InvalidOperation`, and no compiler is returned.
- **Failed accessor.** When a check fails, the accessor yields `null` (`None`), never an empty collection.

## Model

| member | source | states |
|---|---|---|
| MultiExampleSerializerCompiler.FirstOrDefault | cs/cs/Serializer/VowpalWabbitMultiExampleSerializerCompiler.cs:17 | The result is null exactly when no feature carries the name. Otherwise it is the feature at the first position that carries the name. |
| MultiExampleSerializerCompiler.TryCreate | cs/cs/Serializer/VowpalWabbitMultiExampleSerializerCompiler.cs:14-29 | It returns null exactly when no feature is named `_multi`. It throws an argument error exactly when the first `_multi` feature's type has no enumerable element type; the error reports that feature's type. It throws `TargetInvocation(InvalidOperation)`, the constructor's exception wrapped by `Activator.CreateInstance`, exactly when the element type exists and the feature has no validity check. No other exception is raised within the model. Otherwise the compiled triple is built from the first `_multi` feature and its element type, as `Assembled` states. |
| MultiExampleSerializerCompiler.Without | cs/cs/Serializer/VowpalWabbitMultiExampleSerializerCompiler.cs:45 | `Where(fe => fe != multiFeature).ToList()`, comparing references. The result is never longer than the list and never contains the removed object. `WithoutKeepsOrder` states its full behaviour, including order; `WithoutMembers`, `WithoutMultiset` and `WithoutSingleOccurrence` state its membership, its counts and the single-occurrence case directly. |
| MultiExampleSerializerCompiler.WithoutKeepsOrder | cs/cs/Serializer/VowpalWabbitMultiExampleSerializerCompiler.cs:45 | The filter works entry by entry. A lone entry stays exactly when it is not the removed object. Filtering a concatenation filters each part and keeps the parts in order. So the other features keep their relative order for any list, however often the removed object is listed. |
| MultiExampleSerializerCompiler.WithoutMembers | cs/cs/Serializer/VowpalWabbitMultiExampleSerializerCompiler.cs:45 | Every entry of the result is a listed feature other than the removed object. Every listed feature other than the removed object is in the result. |
| MultiExampleSerializerCompiler.WithoutEmpty | cs/cs/Serializer/VowpalWabbitMultiExampleSerializerCompiler.cs:45-47 | Nothing remains, so `Count == 0`, exactly when every listed feature is the removed object. |
| MultiExampleSerializerCompiler.WithoutAbsent | cs/cs/Serializer/VowpalWabbitMultiExampleSerializerCompiler.cs:45 | Removing an object that is not listed leaves the list unchanged. |
| MultiExampleSerializerCompiler.WithoutMultiset | cs/cs/Serializer/VowpalWabbitMultiExampleSerializerCompiler.cs:45 | The remaining features are the list with every occurrence of the removed object dropped. Every other entry keeps its number of occurrences. |
| MultiExampleSerializerCompiler.WithoutSingleOccurrence | cs/cs/Serializer/VowpalWabbitMultiExampleSerializerCompiler.cs:45 | If the removed object occurs only at position k, the result is the list without position k: the other entries in their original relative order. |
| MultiExampleSerializerCompiler.NewImpl | cs/cs/Serializer/VowpalWabbitMultiExampleSerializerCompiler.cs:39-79 | It fails, with `InvalidOperation`, exactly when the multi feature has no validity check. Otherwise: the shared compiler is absent exactly when every listed feature is the multi object. When present, it is built over the remaining features, for the outer type. The ADF compiler is always built, over the element type's discovered features. Both compilers get the settings' custom featurizer and the flag `!EnableStringExampleGeneration`. The accessor is the one `BuildAccessor` makes from the multi feature's checks and value expression, so `AccessorSemantics` applies to it. It yields the extracted value when every validity check holds and null otherwise. |
| MultiExampleSerializerCompiler.SharedFeaturesKeepOrder | cs/cs/Serializer/VowpalWabbitMultiExampleSerializerCompiler.cs:45-51 | When the selected `_multi` object occurs only once in the list, the shared compiler is absent exactly when `_multi` is the only feature. Otherwise the shared compiler holds all features except the selected one, in their original order. |
| MultiExampleSerializerCompiler.Create | cs/cs/Serializer/VowpalWabbitMultiExampleSerializerCompiler.cs:81-88 | The serializer has a shared serializer exactly when the compiler has a shared compiler. It always has the ADF serializer and the same accessor, all bound to the given engine handle. |
| MultiExampleSerializerCompiler.CompiledAccessorShortCircuits | cs/cs/Serializer/VowpalWabbitMultiExampleSerializerCompiler.cs:58-78 | The accessor stored in a compiled triple short-circuits on every example. Check j runs exactly when checks 0..j-1 held. The checks run in list order. The collection is read exactly when every check held, as the last step. |
| MultiExampleSerializerCompiler.CreateAfterTryCreate | cs/cs/Serializer/VowpalWabbitMultiExampleSerializerCompiler.cs:39-88 | After a successful `TryCreate`, `Create` gives a shared serializer exactly when some feature other than the selected `_multi` object exists. That serializer holds exactly `Without(allFeatures, multiFeature)`: the other features in order, never the selected `_multi` object. `Serves` gathers these facts. The ADF serializer is built over the element type's own features. Both get the same featurizer and code generation flag. The accessor is the one built from the selected feature's checks and value expression. It yields the collection exactly when every validity check holds, and null otherwise. |
| AccessorExpression.Aggregate | cs/cs/Serializer/VowpalWabbitMultiExampleSerializerCompiler.cs:61-65 | The left fold of `AndAlso` over the remaining checks refers only to existing checks. |
| AccessorExpression.AggregateLeaves | cs/cs/Serializer/VowpalWabbitMultiExampleSerializerCompiler.cs:61-65 | The fold appends the checks i..n-1, in order, to the checks of the seed. |
| AccessorExpression.BuildCondition | cs/cs/Serializer/VowpalWabbitMultiExampleSerializerCompiler.cs:61-65 | There is no condition exactly when there are no checks, because `First()` throws. Otherwise the condition refers only to existing checks. |
| AccessorExpression.ConditionLeaves | cs/cs/Serializer/VowpalWabbitMultiExampleSerializerCompiler.cs:61-65 | The condition mentions every check exactly once, in list order: 0, 1, ..., n-1. |
| AccessorExpression.ScanShortCircuits | cs/cs/Serializer/VowpalWabbitMultiExampleSerializerCompiler.cs:60-65 | A left-to-right `&&` chain is true exactly when all checks hold. Check j runs exactly when all earlier checks were true. The checks run in list order. |
| AccessorExpression.Evaluate | cs/cs/Serializer/VowpalWabbitMultiExampleSerializerCompiler.cs:65 | C#'s `AndAlso` evaluation: the right operand runs only when the left one is true. It runs at least one check and never more than the tree mentions. A true condition has run as many checks as the tree mentions. `EvaluateTrace` states the order; `EvaluateAggregate` and `ConditionIsScan` state the result for the built tree. |
| AccessorExpression.EvaluateTrace | cs/cs/Serializer/VowpalWabbitMultiExampleSerializerCompiler.cs:65 | The checks run in the order the tree mentions them, leftmost first, never skipping ahead: the steps are a prefix of the tree's checks. A true condition has run all of them. |
| AccessorExpression.EvaluateAggregate | cs/cs/Serializer/VowpalWabbitMultiExampleSerializerCompiler.cs:61-65 | Evaluating the folded tree evaluates the seed first. Only when the seed is true does it go on to the remaining checks, left to right, stopping at the first false one. |
| AccessorExpression.ConditionIsScan | cs/cs/Serializer/VowpalWabbitMultiExampleSerializerCompiler.cs:61-65 | The condition the compiler builds evaluates exactly as the reference left-to-right scan, in both value and steps. |
| AccessorExpression.BuildAccessor | cs/cs/Serializer/VowpalWabbitMultiExampleSerializerCompiler.cs:61-78 | No accessor exists exactly when there is no validity check. Otherwise the accessor uses the feature's own checks and value expression. |
| AccessorExpression.Accessor.Invoke | cs/cs/Serializer/VowpalWabbitMultiExampleSerializerCompiler.cs:70-76 | `Expression.Condition(condition, multiExpression, null)`: the result is the value or null. The value is read exactly when the result is not null, and then after every check of the condition has run, as the last step. `AccessorSemantics` states when that happens. |
| AccessorExpression.AccessorSemantics | cs/cs/Serializer/VowpalWabbitMultiExampleSerializerCompiler.cs:67-78 | The accessor yields the extracted value when every check holds and null otherwise. Check j runs exactly when checks 0..j-1 were all true. The checks run in list order. The value is read exactly when the whole condition holds, and then as the last step. The trace has at most one step per check plus the value. |

## Left out

- Runtime generic instantiation (`MakeGenericType`, `Activator.CreateInstance`, lines 27-28) is replaced by ordinary data. The compiled triple records the outer and element type tags; its values live in the one object type `O`.
- The expression trees and `CompileToFunc` (lines 58-78) are replaced by the `Condition` datatype and its evaluation. The compiled accessor is an `Accessor` value, `Conditional(condition, checks, value)`, and its `Invoke` does that evaluation.
- `VowpalWabbitSingleExampleSerializerCompiler` is not part of this model. It is a record of its constructor arguments, and its `Create` is a record of compiler and engine handle. How it emits features, and any `SchemaError` its constructor may raise, are not modelled.
- `InspectionHelper.GetEnumerableElementType` and `AnnotationJsonInspector.ExtractFeatures` are not part of this model. They are arbitrary functions supplied in `Inspector`.
- `VowpalWabbitMultiExampleSerializer` is not part of this model. It is the record of the four arguments `Create` passes it. What it emits when invoked (one shared example, then one example per collection element) is therefore not modelled.
- `VowpalWabbitConstants` is not part of this model. The reserved name `_multi` is taken from the comments at lines 16 and 69.
- `Contract.Requires` non-null checks (lines 41-43) are covered by Dafny's non-null types. So is `settings == null ? null : ...` (lines 50 and 55): the settings are never null, and line 56 dereferences them on every path.
- MultiExampleSerializerCompiler.TryCreate: type errors raised while the expression tree is built are not modelled. An example is a value-type `_multi` property whose type still has an element type: `Expression.Constant(null, ...)` and `Expression.Condition(..., typeof(IEnumerable<...>))` at lines 74-75 throw `ArgumentException` for it, which `Activator.CreateInstance` (line 28) delivers as a `TargetInvocationException`. The model returns a compiled triple there.
- Exceptions thrown by a validity check or value expression when the accessor runs are not modelled. The checks and value expressions are total functions.
- Null entries in the feature list are not modelled; the list holds non-null references. A null before the first `_multi` feature makes `fe.Name` at line 17 throw. One after it is never dereferenced there: it passes the filter at line 45 and reaches the shared compiler's list.
- A value expression may itself return a null object. The model keeps it as `Some` of that object, where C# could not tell it from the accessor's `null` branch.
- The unit-test validator (`cs/unittest/VowpalWabbitExampleValidator.cs`) is not modelled. It is a test harness around the native engine: parsing, diffing, regular expressions and disposal of native handles.
