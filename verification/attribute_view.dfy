/**
  The attribute list of the editor: one node per reflected field of each
  attribute set spawned on the inspected component. Reflection itself is
  outside the model; each set arrives as the list of its fields.
 */
module AttributeView {
  import opened Engine

  /** One node of the attribute list. */
  datatype AttributeNode = AttributeNode(attribute: AttributeId)

  /** Some non-null set among `sets` has field `a`. */
  predicate Declared(sets: seq<AttributeSet>, a: AttributeId)
  {
    exists k :: 0 <= k < |sets| && sets[k].Some? && a in sets[k].value
  }

  /** The nodes for each field of each non-null set, set by set, field by field. */
  function BuildAttributeNodes(sets: seq<AttributeSet>): (nodes: seq<AttributeNode>)
    ensures forall a :: AttributeNode(a) in nodes <==> Declared(sets, a)
  {
    if sets == [] then []
    else
      var rest := BuildAttributeNodes(sets[1..]);
      DeclaredCons(sets);
      match sets[0]
      case None => rest
      case Some(fields) => FieldNodes(fields) + rest
  }

  lemma DeclaredCons(sets: seq<AttributeSet>)
    requires sets != []
    ensures forall a :: Declared(sets, a) <==> (sets[0].Some? && a in sets[0].value) || Declared(sets[1..], a)
  {
    forall a | Declared(sets[1..], a)
      ensures Declared(sets, a)
    {
      var k :| 0 <= k < |sets[1..]| && sets[1..][k].Some? && a in sets[1..][k].value;
      assert sets[k + 1] == sets[1..][k];
    }
    forall a | Declared(sets, a) && !(sets[0].Some? && a in sets[0].value)
      ensures Declared(sets[1..], a)
    {
      var k :| 0 <= k < |sets| && sets[k].Some? && a in sets[k].value;
      assert k != 0;
      assert sets[1..][k - 1] == sets[k];
    }
  }

  /** The nodes for the fields of one set, in order. */
  function FieldNodes(fields: seq<AttributeId>): (nodes: seq<AttributeNode>)
    ensures |nodes| == |fields|
    ensures forall i :: 0 <= i < |nodes| ==> nodes[i] == AttributeNode(fields[i])
  {
    if fields == [] then [] else [AttributeNode(fields[0])] + FieldNodes(fields[1..])
  }

  /** The list for a concatenation of set lists is the concatenation of their lists: sets keep their order. */
  lemma {:induction false} BuildAttributeNodesAppend(a: seq<AttributeSet>, b: seq<AttributeSet>)
    ensures BuildAttributeNodes(a + b) == BuildAttributeNodes(a) + BuildAttributeNodes(b)
  {
    if a == [] {
      assert a + b == b;
    } else {
      assert (a + b)[0] == a[0];
      assert (a + b)[1..] == a[1..] + b;
      BuildAttributeNodesAppend(a[1..], b);
    }
  }
}
