/** The per-component artifact-resolution state: a cache from graph variant
    to its per-variant resolve state, and that per-variant state. */
module LocalResolveState {
  import opened Wrappers
  import opened LocalModel
  import opened VariantAggregation

  /** Exclusion rules handed through to artifact selection; their meaning
      belongs to the selector. */
  datatype ExcludeSpec = ExcludeSpec(rules: seq<string>)

  /** Attribute overrides handed through to artifact selection. */
  datatype Attributes = Attributes(entries: map<string, string>)

  /** The arguments of one call into the external artifact selector: the
      component, the scratch cache of resolved variants (its key and value
      types are arbitrary here; only its emptiness is stated), the candidate
      universe the variant supplier yields, the declared variants, the
      exclusions and the attribute overrides. */
  datatype SelectorRequest = SelectorRequest(
    component: LocalComponent,
    resolvedVariants: map<PhysicalVariant, seq<Artifact>>,
    allVariants: set<PhysicalVariant>,
    declaredVariants: set<PhysicalVariant>,
    exclusions: ExcludeSpec,
    overriddenAttributes: Attributes)

  /** Resolve state of one graph-selected variant of one component. Both
      fields are final in the source, so every operation is a function. */
  class VariantArtifactResolveState {
    const component: LocalComponent
    const graphSelectedVariant: LocalVariant

    constructor(component: LocalComponent, graphSelectedVariant: LocalVariant)
      ensures this.component == component && this.graphSelectedVariant == graphSelectedVariant
    {
      this.component := component;
      this.graphSelectedVariant := graphSelectedVariant;
    }

    /** The prepared configuration's artifacts, unchanged and in
        declaration order. */
    function Artifacts(): (r: seq<Artifact>)
      ensures |r| == |Prepare(graphSelectedVariant).artifacts|
      ensures forall i :: 0 <= i < |r| ==> r[i] == Prepare(graphSelectedVariant).artifacts[i]
    {
      Prepare(graphSelectedVariant).artifacts
    }

    /** One artifact by name. The source prepares the variant once more
        before the lookup; preparation is deterministic, so that extra call
        has no effect on the result, which is exactly what the prepared
        configuration's lookup yields. */
    function ResolveArtifact(name: ArtifactName): (r: Option<Artifact>)
      ensures r == LookupArtifact(graphSelectedVariant.prepared, name)
    {
      LookupArtifact(Prepare(graphSelectedVariant), name)
    }

    /** The arguments `resolveArtifacts` hands to the selector. */
    function SelectorArguments(exclusions: ExcludeSpec, overriddenAttributes: Attributes): (q: SelectorRequest)
      ensures q.component == component
      ensures q.resolvedVariants == map[]
      ensures q.declaredVariants == Prepare(graphSelectedVariant).variants
      ensures q.allVariants == BuildAllVariants(component.graphTraversalVariants, Prepare(graphSelectedVariant))
      ensures q.exclusions == exclusions && q.overriddenAttributes == overriddenAttributes
      ensures component.graphTraversalVariants.None? || graphSelectedVariant in component.graphTraversalVariants.value
        ==> q.declaredVariants <= q.allVariants
    {
      var configuration := Prepare(graphSelectedVariant);
      var traversal := component.graphTraversalVariants;
      assert traversal.None? || graphSelectedVariant in traversal.value
        ==> configuration.variants <= BuildAllVariants(traversal, configuration) by {
        if traversal.None? || graphSelectedVariant in traversal.value {
          OwnVariantsOffered(traversal, graphSelectedVariant);
        }
      }
      SelectorRequest(component, map[], BuildAllVariants(traversal, configuration),
                      configuration.variants, exclusions, overriddenAttributes)
    }

    /** Full artifact-set resolution: one call into the selector `select`,
        which stands for the external artifact selector. */
    function ResolveArtifacts<S>(select: SelectorRequest -> S, exclusions: ExcludeSpec, overriddenAttributes: Attributes): (r: S)
      ensures r == select(SelectorRequest(component, map[],
                                          BuildAllVariants(component.graphTraversalVariants, Prepare(graphSelectedVariant)),
                                          Prepare(graphSelectedVariant).variants, exclusions, overriddenAttributes))
    {
      select(SelectorArguments(exclusions, overriddenAttributes))
    }

    /** Two resolutions of this variant pass the selector requests that agree
        on everything except the exclusions and overrides, each with an empty
        scratch cache: no call sees anything an earlier call computed. */
    lemma ResolveArtifactsShareNothing(e1: ExcludeSpec, a1: Attributes, e2: ExcludeSpec, a2: Attributes)
      ensures SelectorArguments(e1, a1).resolvedVariants == SelectorArguments(e2, a2).resolvedVariants == map[]
      ensures SelectorArguments(e1, a1).(exclusions := e2, overriddenAttributes := a2) == SelectorArguments(e2, a2)
    {
    }
  }

  /** Resolve state of one local component. `variants` is the cache from a
      graph variant to its resolve state, filled on first request. */
  class ComponentResolveState {
    const metadata: LocalComponent
    var variants: map<LocalVariant, VariantArtifactResolveState>

    /** Every cached state was built for this component and for the very
        variant it is stored under. */
    ghost predicate Valid()
      reads this
    {
      forall v :: v in variants ==> variants[v].component == metadata && variants[v].graphSelectedVariant == v
    }

    constructor(metadata: LocalComponent)
      ensures Valid() && this.metadata == metadata && variants == map[]
    {
      this.metadata := metadata;
      variants := map[];
    }

    /** Insert-if-absent: a cached variant gets its stored state back and the
        cache is left as it was; a new variant gets exactly one new entry,
        built from this component and that variant. */
    method StateFor(variant: LocalVariant) returns (state: VariantArtifactResolveState)
      requires Valid()
      modifies this
      ensures Valid()
      ensures variant in variants && variants[variant] == state
      ensures variants.Keys == old(variants.Keys) + {variant}
      ensures forall k :: k in old(variants) ==> variants[k] == old(variants[k])
      ensures variant in old(variants) ==> state == old(variants[variant]) && variants == old(variants)
      ensures variant !in old(variants) ==>
        fresh(state) && state.component == metadata && state.graphSelectedVariant == variant &&
        variants == old(variants)[variant := state]
    {
      if variant in variants {
        state := variants[variant];
      } else {
        state := new VariantArtifactResolveState(metadata, variant);
        variants := variants[variant := state];
      }
    }

    /** The variant's artifact-graph metadata: its cached resolve state. */
    method ResolveArtifactsFor(variant: LocalVariant) returns (state: VariantArtifactResolveState)
      requires Valid()
      modifies this
      ensures Valid()
      ensures variant in variants && variants[variant] == state
      ensures variants.Keys == old(variants.Keys) + {variant}
      ensures forall k :: k in old(variants) ==> variants[k] == old(variants[k])
      ensures variant !in old(variants) ==>
        fresh(state) && state.component == metadata && state.graphSelectedVariant == variant
    {
      state := StateFor(variant);
    }

    /** The variant's artifact resolve handle: its cached resolve state. */
    method PrepareForArtifactResolution(variant: LocalVariant) returns (state: VariantArtifactResolveState)
      requires Valid()
      modifies this
      ensures Valid()
      ensures variant in variants && variants[variant] == state
      ensures variants.Keys == old(variants.Keys) + {variant}
      ensures forall k :: k in old(variants) ==> variants[k] == old(variants[k])
      ensures variant !in old(variants) ==>
        fresh(state) && state.component == metadata && state.graphSelectedVariant == variant
    {
      state := StateFor(variant);
    }

    /** Requesting one variant through either entry point and then through
        the other (or the same one again) yields the identical state object,
        built for this component and that variant. */
    method RequestTwice(variant: LocalVariant, resolveFirst: bool, resolveSecond: bool)
      returns (first: VariantArtifactResolveState, second: VariantArtifactResolveState)
      requires Valid()
      modifies this
      ensures Valid()
      ensures variant in variants && variants[variant] == first && first == second
      ensures first.component == metadata && first.graphSelectedVariant == variant
      ensures variants.Keys == old(variants.Keys) + {variant}
    {
      if resolveFirst {
        first := ResolveArtifactsFor(variant);
      } else {
        first := PrepareForArtifactResolution(variant);
      }
      if resolveSecond {
        second := ResolveArtifactsFor(variant);
      } else {
        second := PrepareForArtifactResolution(variant);
      }
    }

    /** Distinct variants never share a resolve state. */
    lemma DistinctVariantsDistinctStates(a: LocalVariant, b: LocalVariant)
      requires Valid()
      requires a in variants && b in variants && a != b
      ensures variants[a] != variants[b]
    {
    }
  }
}
