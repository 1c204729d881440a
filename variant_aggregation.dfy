/** The candidate-variant universe offered to artifact selection
    (`buildAllVariants`). */
module VariantAggregation {
  import opened Wrappers
  import opened LocalModel

  /** Every physical variant of the prepared configuration of every variant
      in `vs`: the map / flatMap / collect-to-set pipeline. */
  function UnionOfPrepared(vs: seq<LocalVariant>): (r: set<PhysicalVariant>)
    ensures forall p :: p in r <==> exists i :: 0 <= i < |vs| && p in Prepare(vs[i]).variants
  {
    if |vs| == 0 then {}
    else
      var rest := UnionOfPrepared(vs[1..]);
      assert forall i :: 0 <= i < |vs| - 1 ==> vs[1..][i] == vs[i + 1];
      Prepare(vs[0]).variants + rest
  }

  /** The candidate universe for the graph-selected variant whose prepared
      configuration is `configuration`: the union over all graph-traversal
      variants when the component has them, otherwise the configuration's
      own physical variants. */
  function BuildAllVariants(traversal: Option<seq<LocalVariant>>, configuration: Configuration): (r: set<PhysicalVariant>)
    ensures traversal.Some? ==>
      forall p :: p in r <==> exists i :: 0 <= i < |traversal.value| && p in Prepare(traversal.value[i]).variants
    ensures traversal.None? ==> r == configuration.variants
  {
    match traversal
    case Some(vs) => UnionOfPrepared(vs)
    case None => configuration.variants
  }

  /** Reference definition of the union: a set comprehension over the
      traversal variants. */
  ghost function AllPhysicalVariants(vs: seq<LocalVariant>): set<PhysicalVariant>
  {
    set i, p | 0 <= i < |vs| && p in Prepare(vs[i]).variants :: p
  }

  /** With graph-traversal variants present, the universe is exactly the
      union of their prepared physical variants, whatever the target
      configuration is. */
  lemma BuildAllVariantsPresent(vs: seq<LocalVariant>, configuration: Configuration)
    ensures BuildAllVariants(Some(vs), configuration) == AllPhysicalVariants(vs)
    ensures forall i :: 0 <= i < |vs| ==> Prepare(vs[i]).variants <= BuildAllVariants(Some(vs), configuration)
  {
  }

  /** The union distributes over concatenation of the traversal list. */
  lemma {:induction false} UnionOfPreparedAppend(a: seq<LocalVariant>, b: seq<LocalVariant>)
    ensures UnionOfPrepared(a + b) == UnionOfPrepared(a) + UnionOfPrepared(b)
  {
    if |a| == 0 {
      assert a + b == b;
    } else {
      assert (a + b)[1..] == a[1..] + b;
      UnionOfPreparedAppend(a[1..], b);
    }
  }

  /** Collecting into a set makes the order and repetition of the traversal
      variants irrelevant: only which variants occur matters. */
  lemma UnionOfPreparedSetwise(a: seq<LocalVariant>, b: seq<LocalVariant>)
    requires forall v :: v in a <==> v in b
    ensures UnionOfPrepared(a) == UnionOfPrepared(b)
  {
    forall p | p in UnionOfPrepared(a) ensures p in UnionOfPrepared(b) {
      var i :| 0 <= i < |a| && p in Prepare(a[i]).variants;
      assert a[i] in b;
      var j :| 0 <= j < |b| && b[j] == a[i];
    }
    forall p | p in UnionOfPrepared(b) ensures p in UnionOfPrepared(a) {
      var j :| 0 <= j < |b| && p in Prepare(b[j]).variants;
      assert b[j] in a;
      var i :| 0 <= i < |a| && a[i] == b[j];
    }
  }

  /** The target's own physical variants are always in the universe when the
      component has no traversal variants or lists the target among them;
      with traversal variants the universe also holds every sibling's. */
  lemma OwnVariantsOffered(traversal: Option<seq<LocalVariant>>, selected: LocalVariant)
    requires traversal.None? || selected in traversal.value
    ensures Prepare(selected).variants <= BuildAllVariants(traversal, Prepare(selected))
  {
  }
}
