/** Value-level metadata of a local component: artifacts, physical variants,
    prepared configurations, graph variants and the component itself. */
module LocalModel {
  import opened Wrappers

  /** An Ivy-style artifact name (name, type, extension, optional classifier):
      the key that single-artifact lookup matches on. */
  datatype ArtifactName = ArtifactName(name: string, kind: string, extension: string, classifier: Option<string>)

  /** Metadata of one physical artifact of a local component; `id` stands
      for the identity of the metadata object. */
  datatype Artifact = Artifact(id: nat)

  /** One physical variant of a configuration, for instance the classes
      artifact as opposed to the sources artifact of one usage; `id` stands
      for the identity of the variant metadata object. */
  datatype PhysicalVariant = PhysicalVariant(id: nat)

  /** The resolution-ready form of a graph variant: its ordered artifacts,
      its set of physical variants, and the table its by-name artifact
      lookup answers from. */
  datatype Configuration = Configuration(
    artifacts: seq<Artifact>,
    variants: set<PhysicalVariant>,
    byName: map<ArtifactName, Artifact>)

  /** A graph variant of a local component. `id` stands for the identity of
      the metadata object; this model chooses to keep variant values with
      equal content but different `id`s apart as cache keys. `prepared` is
      the configuration that preparing this variant yields. */
  datatype LocalVariant = LocalVariant(id: nat, prepared: Configuration)

  /** Local component metadata. `componentId` stands for the component's
      identifier, which distinguishes the component handed to artifact
      selection. `graphTraversalVariants` is the optional, component-wide
      enumeration of variants used to widen artifact selection; `None` is
      the source's empty `Optional`. */
  datatype LocalComponent = LocalComponent(
    componentId: nat,
    graphTraversalVariants: Option<seq<LocalVariant>>)

  /** Preparing a variant for artifact resolution. How a variant is prepared
      is not part of this model: the result is the configuration the variant
      carries, so preparing is deterministic and preparing twice yields the
      same configuration. */
  function Prepare(v: LocalVariant): Configuration
  {
    v.prepared
  }

  /** The configuration's by-name artifact lookup: whatever its table holds
      for that name, or `None` for a name the table lacks. */
  function LookupArtifact(c: Configuration, name: ArtifactName): Option<Artifact>
  {
    if name in c.byName then Some(c.byName[name]) else None
  }
}
