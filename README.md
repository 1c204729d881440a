# Local component artifact-resolution state

A model of the per-component artifact-resolution state of a local
(same-build) component in the dependency-resolution engine: the class
`DefaultLocalComponentGraphResolveState` with its cache of per-variant
resolve states, and the inner `DefaultLocalVariantArtifactResolveState`
that lists a variant's artifacts, looks one up by name, and hands full
artifact-set resolution to the external artifact selector with the
candidate-variant universe built by `buildAllVariants`.

Files:

- `wrappers.dfy`: `Option`, standing for `Optional` and for possibly absent results.
- `local_model.dfy` (module `LocalModel`): artifacts, Ivy artifact names,
  physical variants, prepared configurations, graph variants and the component
  metadata. Preparation (`prepareToResolveArtifacts`) is modelled as a
  deterministic function of the variant. The variant carries the configuration it
  prepares to. A configuration's by-name lookup (`artifact(name)`) answers from a
  table the configuration carries.
- `variant_aggregation.dfy` (module `VariantAggregation`): `buildAllVariants`
  and the union pipeline behind it. The contract of `BuildAllVariants` covers
  both branches. Lemmas relate the union to a reference definition, to list
  concatenation and to the order of the traversal variants.
- `resolve_state.dfy` (module `LocalResolveState`): the two classes. The
  component state has a `variants` map field as its cache. `StateFor` updates it
  in place with insert-if-absent. The per-variant state has two immutable fields,
  so its operations are functions.

The external artifact selector is a function parameter. The model records the
arguments it receives as a `SelectorRequest` value.

What the code does not do:

- An unknown artifact name is not turned into a NOT_FOUND failure.
  `resolveArtifact` returns whatever the configuration lookup returns.
- Building a cache entry does not prepare the variant. So there is no failed
  preparation that could be cached, and no retry to model.
- `copy` only delegates to the component metadata. Nothing about mutation can be
  stated from the code.

## Model

| member | source | states |
|---|---|---|
| VariantAggregation.UnionOfPrepared | subprojects/dependency-management/src/main/java/org/gradle/internal/component/local/model/DefaultLocalComponentGraphResolveState.java:102-106 | a physical variant is in the union exactly when it belongs to the prepared configuration of some traversal variant |
| VariantAggregation.BuildAllVariantsPresent | subprojects/dependency-management/src/main/java/org/gradle/internal/component/local/model/DefaultLocalComponentGraphResolveState.java:101-106 | with traversal variants present, the universe equals a set-comprehension reference union of their prepared variants. It contains every traversal variant's own set |
| VariantAggregation.BuildAllVariants | subprojects/dependency-management/src/main/java/org/gradle/internal/component/local/model/DefaultLocalComponentGraphResolveState.java:99-111 | with traversal variants present, a physical variant is offered exactly when some traversal variant's prepared configuration declares it; with them absent, the universe is exactly the target configuration's own variant set |
| VariantAggregation.UnionOfPreparedAppend | subprojects/dependency-management/src/main/java/org/gradle/internal/component/local/model/DefaultLocalComponentGraphResolveState.java:102-106 | the union over a concatenated traversal list is the union of the unions over its parts |
| VariantAggregation.UnionOfPreparedSetwise | subprojects/dependency-management/src/main/java/org/gradle/internal/component/local/model/DefaultLocalComponentGraphResolveState.java:106 | collecting into a set means the order and repetition of traversal variants do not change the universe |
| VariantAggregation.OwnVariantsOffered | subprojects/dependency-management/src/main/java/org/gradle/internal/component/local/model/DefaultLocalComponentGraphResolveState.java:99-111 | the target's own physical variants are always in the universe when traversal variants are absent or include the target |
| LocalResolveState.VariantArtifactResolveState.constructor | subprojects/dependency-management/src/main/java/org/gradle/internal/component/local/model/DefaultLocalComponentGraphResolveState.java:76-79 | a new state holds the given component and graph-selected variant |
| LocalResolveState.VariantArtifactResolveState.Artifacts | subprojects/dependency-management/src/main/java/org/gradle/internal/component/local/model/DefaultLocalComponentGraphResolveState.java:82-84 | the artifact list is the prepared configuration's, element for element and in order |
| LocalResolveState.VariantArtifactResolveState.ResolveArtifact | subprojects/dependency-management/src/main/java/org/gradle/internal/component/local/model/DefaultLocalComponentGraphResolveState.java:87-90 | the result is exactly the prepared configuration's by-name lookup result; the extra preparation does not change it |
| LocalResolveState.VariantArtifactResolveState.SelectorArguments | subprojects/dependency-management/src/main/java/org/gradle/internal/component/local/model/DefaultLocalComponentGraphResolveState.java:93-97 | each call hands the selector a new empty scratch map and the target's own variants as declared. The aggregator's universe is the candidate set and contains the declared variants whenever the target is offered |
| LocalResolveState.VariantArtifactResolveState.ResolveArtifacts | subprojects/dependency-management/src/main/java/org/gradle/internal/component/local/model/DefaultLocalComponentGraphResolveState.java:93-97 | the selector's result for a request with an empty scratch map, the aggregator's universe as candidates and the target's own variants as declared |
| LocalResolveState.VariantArtifactResolveState.ResolveArtifactsShareNothing | subprojects/dependency-management/src/main/java/org/gradle/internal/component/local/model/DefaultLocalComponentGraphResolveState.java:93-97 | two resolutions agree on every argument except exclusions and overrides, and both get an empty scratch map |
| LocalResolveState.ComponentResolveState.constructor | subprojects/dependency-management/src/main/java/org/gradle/internal/component/local/model/DefaultLocalComponentGraphResolveState.java:42-56 | a new component state has an empty cache |
| LocalResolveState.ComponentResolveState.StateFor | subprojects/dependency-management/src/main/java/org/gradle/internal/component/local/model/DefaultLocalComponentGraphResolveState.java:68-70 | a cached variant returns its stored state and the map is unchanged. A missing variant gains exactly one fresh entry built from this component and that variant. Other keys keep their entries and the key set only grows |
| LocalResolveState.ComponentResolveState.ResolveArtifactsFor | subprojects/dependency-management/src/main/java/org/gradle/internal/component/local/model/DefaultLocalComponentGraphResolveState.java:58-61 | goes through the cache: says what StateFor says about the returned state and the map |
| LocalResolveState.ComponentResolveState.PrepareForArtifactResolution | subprojects/dependency-management/src/main/java/org/gradle/internal/component/local/model/DefaultLocalComponentGraphResolveState.java:63-66 | goes through the cache: says what StateFor says about the returned state and the map |
| LocalResolveState.ComponentResolveState.RequestTwice | subprojects/dependency-management/src/main/java/org/gradle/internal/component/local/model/DefaultLocalComponentGraphResolveState.java:59-66 | two requests for one variant through either entry point, in either order, yield the identical state object |
| LocalResolveState.ComponentResolveState.DistinctVariantsDistinctStates | subprojects/dependency-management/src/main/java/org/gradle/internal/component/local/model/DefaultLocalComponentGraphResolveState.java:42 | distinct cached variants never share a resolve state |

## Left out

- Concurrency of `ConcurrentHashMap.computeIfAbsent`: the cache is a sequential map, so races and discarded duplicate constructions are not modelled.
- The artifact selector's own work (lazy resolution, exclusions, attribute overrides, I/O) lives outside this code. The model is a function parameter applied to the recorded arguments.
- The variant supplier is passed lazily in the source. The model records the set it would supply, not when it is computed.
- Internals of variant preparation, the configuration's by-name lookup, `getVariantsForGraphTraversal` and the meaning of exclusion specs and attributes: none is part of this model. Each is a plain deterministic value or function.
- Prepare: how a variant is prepared is not part of this model. Preparation is an abstract deterministic function: the configuration a variant carries.
- LookupArtifact: the code of the by-name lookup is not part of this model. It answers from a table the configuration carries. A name outside the table yields `None`, which stands for whatever that lookup returns for such a name.
- Object identity of variant metadata: the cache key is the whole variant value. Its `id` field keeps apart variant objects whose content is equal. Two values with the same `id` and different configurations are also different keys.
- The downcasts to local variant metadata in `resolveArtifactsFor` and `prepareForArtifactResolution` (:60, :65): the parameter is a local variant, so the `ClassCastException` for a non-local variant is ruled out by the types.
- The downcast of each graph-traversal variant in `buildAllVariants` (:103): traversal variants are local variants by type, so a failing cast cannot occur in the model.
- Equality of physical variants in `Collectors.toSet()` (:106): the source groups elements by the `equals` of classes that are not part of this model. The model uses value equality of `PhysicalVariant`, whose only field is an `id` for the metadata object.
- `getModuleVersionId` and `copy`: both only delegate to component metadata, whose code is not part of this model.
- `VersionControlSystem` and `AbstractOutputPropertyAnnotationHandler`: an interface without logic and a constant-returning handler, outside this core.
