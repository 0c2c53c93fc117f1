/** The walk over the signed schema itself. A covered field is always a field of something
    covered, so the walk never stops above a covered field. */
module SignedFields {
  import opened Text
  import opened SchemaWalker

  /** A field name that cannot be mistaken for path syntax. */
  predicate PlainKey(k: string) {
    k != "" && '.' !in k && k[|k| - 1] != ']'
  }

  predicate AllPlain(names: seq<string>) {
    forall i :: 0 <= i < |names| ==> PlainKey(names[i])
  }

  predicate PlainSteps(steps: seq<Step>) {
    forall i :: 0 <= i < |steps| && steps[i].Key? ==> PlainKey(steps[i].name)
  }

  /** The tree itself, a covered object, or the elements of a covered array. */
  ghost predicate CoveredObject(schema: Schema, version: nat, path: string) {
    path == "" || schema.Covers(version, path) || exists q :: schema.Covers(version, q) && path == ElemPath(q)
  }

  /** A plainly named field of such an object. */
  ghost predicate FieldOfCovered(schema: Schema, version: nat, path: string) {
    exists owner, k :: CoveredObject(schema, version, owner) && PlainKey(k) && path == ChildPath(owner, k)
  }

  /** Every covered path is one. */
  ghost predicate Closed(schema: Schema, version: nat) {
    forall p {:trigger FieldOfCovered(schema, version, p)} ::
      schema.Covers(version, p) ==> FieldOfCovered(schema, version, p)
  }

  // ---- the fields above a covered field -----------------------------------------------------

  lemma {:induction false} RenderLast(path: string, steps: seq<Step>)
    requires steps != []
    ensures Render(path, steps) == Enter(Render(path, steps[..|steps| - 1]), steps[|steps| - 1])
    decreases |steps|
  {
    if |steps| > 1 {
      var next, rest := Enter(path, steps[0]), steps[1..];
      RenderLast(next, rest);
      assert steps[..|steps| - 1][1..] == rest[..|rest| - 1];
    }
  }

  /** A path has one owner and one field name. */
  lemma ChildPathInjective(p: string, k: string, q: string, l: string)
    requires PlainKey(k) && PlainKey(l) && ChildPath(p, k) == ChildPath(q, l)
    ensures p == q && k == l
  {
    assert p != "" ==> ChildPath(p, k)[|p|] == '.';
    assert q != "" ==> ChildPath(q, l)[|q|] == '.';
    if p != "" && q != "" {
      assert ChildPath(p, k) == p + ['.'] + k && ChildPath(q, l) == q + ['.'] + l;
      CutAtLast('.', p, k, q, l);
    }
  }

  /** A path shows in its last character which kind of step ends it. */
  lemma EnterEnds(path: string, step: Step)
    requires step.Key? ==> PlainKey(step.name)
    ensures var p := Enter(path, step); p != "" && (p[|p| - 1] == ']' <==> step.Elem?)
  {
  }

  /** The last step of a covered path is a key, and leads out of the tree itself, a covered
      object, or the elements of a covered array. */
  lemma CoveredLastStep(schema: Schema, version: nat, steps: seq<Step>)
    requires Closed(schema, version) && PlainSteps(steps) && schema.Covers(version, Render("", steps))
    ensures EndsInKey(steps)
    ensures CoveredObject(schema, version, Render("", steps[..|steps| - 1]))
  {
    var p := Render("", steps);
    assert FieldOfCovered(schema, version, p);
    var owner, k :| CoveredObject(schema, version, owner) && PlainKey(k) && p == ChildPath(owner, k);
    EnterEnds(owner, Key(k));
    RenderLast("", steps);
    var above, last := Render("", steps[..|steps| - 1]), steps[|steps| - 1];
    EnterEnds(above, last);
    ChildPathInjective(above, last.name, owner, k);
  }

  /** What leads to a covered object is covered, whether through its key or an array's. */
  lemma {:induction false} ObjectStep(schema: Schema, version: nat, steps: seq<Step>) returns (n: nat)
    requires steps != [] && PlainSteps(steps) && CoveredObject(schema, version, Render("", steps))
    ensures n <= |steps| <= n + 1 && schema.Covers(version, Render("", steps[..n]))
    ensures n < |steps| ==> steps[n].Elem?
  {
    var p, init, last := Render("", steps), steps[..|steps| - 1], steps[|steps| - 1];
    RenderLast("", steps);
    EnterEnds(Render("", init), last);
    assert steps[..|steps|] == steps;
    if schema.Covers(version, p) {
      n := |steps|;
    } else {
      n := |steps| - 1;
      var q :| schema.Covers(version, q) && p == ElemPath(q);
      assert p[|p| - 1] == ']' && p[..|q|] == q && p[..|Render("", init)|] == Render("", init);
    }
  }

  /** One field up from a covered field is a covered field, across at most one array. */
  lemma {:induction false} OneUp(schema: Schema, version: nat, steps: seq<Step>) returns (m: nat)
    requires Closed(schema, version) && PlainSteps(steps) && schema.Covers(version, Render("", steps)) && |steps| > 1
    ensures m < |steps| && schema.Covers(version, Render("", steps[..m]))
    ensures forall i :: m <= i < |steps| - 1 ==> steps[i].Elem?
  {
    CoveredLastStep(schema, version, steps);
    var init := steps[..|steps| - 1];
    m := ObjectStep(schema, version, init);
    assert init[..m] == steps[..m];
  }

  /** Every field above a covered field is covered. */
  lemma {:induction false} CoveredAbove(schema: Schema, version: nat, steps: seq<Step>, n: nat)
    requires Closed(schema, version) && PlainSteps(steps) && schema.Covers(version, Render("", steps))
    requires 0 < n <= |steps| && steps[n - 1].Key?
    ensures schema.Covers(version, Render("", steps[..n]))
    decreases |steps|
  {
    if n == |steps| {
      assert steps[..n] == steps;
    } else {
      var m := OneUp(schema, version, steps);
      CoveredAbove(schema, version, steps[..m], n);
      assert steps[..m][..n] == steps[..n];
    }
  }

  // ---- which position a path names -------------------------------------------------------------

  /** The plainly named position a path spells out. */
  predicate Names(path: string, steps: seq<Step>) {
    PlainSteps(steps) && EndsInKey(steps) && Render("", steps) == path
  }

  lemma LastStep(steps: seq<Step>) returns (init: seq<Step>, last: Step)
    requires steps != [] && PlainSteps(steps)
    ensures steps == init + [last] && PlainSteps(init) && (last.Key? ==> PlainKey(last.name))
    ensures Render("", steps) == Enter(Render("", init), last) != ""
  {
    init, last := steps[..|steps| - 1], steps[|steps| - 1];
    RenderLast("", steps);
    EnterEnds(Render("", init), last);
  }

  /** A path spells out at most one. */
  lemma {:induction false} RenderInjective(a: seq<Step>, b: seq<Step>)
    requires PlainSteps(a) && PlainSteps(b) && Render("", a) == Render("", b)
    ensures a == b
    decreases |a| + |b|
  {
    if a == [] || b == [] {
      if a != [] {
        var init, last := LastStep(a);
      } else if b != [] {
        var init, last := LastStep(b);
      }
    } else {
      var above, x := LastStep(a);
      var above', y := LastStep(b);
      SameEnter(Render("", above), x, Render("", above'), y);
      RenderInjective(above, above');
    }
  }

  lemma SameEnter(p: string, x: Step, q: string, y: Step)
    requires (x.Key? ==> PlainKey(x.name)) && (y.Key? ==> PlainKey(y.name)) && Enter(p, x) == Enter(q, y)
    ensures p == q && x == y
  {
    EnterEnds(p, x);
    EnterEnds(q, y);
    if x.Elem? {
      assert ElemPath(p)[..|p|] == p && ElemPath(q)[..|q|] == q;
    } else {
      ChildPathInjective(p, x.name, q, y.name);
    }
  }

  lemma RenderExtend(steps: seq<Step>, step: Step)
    ensures Render("", steps + [step]) == Enter(Render("", steps), step)
  {
    RenderLast("", steps + [step]);
    assert (steps + [step])[..|steps|] == steps;
  }

  /** A covered path of a closed schema spells out exactly one. */
  lemma {:induction false} CoveredNamesOne(schema: Schema, version: nat, path: string) returns (steps: seq<Step>)
    requires Closed(schema, version) && schema.Covers(version, path)
    ensures Names(path, steps) && forall other :: Names(path, other) ==> other == steps
    decreases |path|
  {
    assert FieldOfCovered(schema, version, path);
    var owner, k :| CoveredObject(schema, version, owner) && PlainKey(k) && path == ChildPath(owner, k);
    var above := [];
    if owner != "" {
      above := ObjectSteps(schema, version, owner, |path|);
    }
    steps := above + [Key(k)];
    RenderExtend(above, Key(k));
    forall other | Names(path, other) ensures other == steps {
      RenderInjective(other, steps);
    }
  }

  lemma {:induction false} ObjectSteps(schema: Schema, version: nat, owner: string, bound: nat)
    returns (steps: seq<Step>)
    requires Closed(schema, version) && CoveredObject(schema, version, owner) && owner != "" && |owner| < bound
    ensures PlainSteps(steps) && Render("", steps) == owner
    decreases bound, 0
  {
    if schema.Covers(version, owner) {
      steps := CoveredNamesOne(schema, version, owner);
    } else {
      var q :| schema.Covers(version, q) && owner == ElemPath(q);
      var list := CoveredNamesOne(schema, version, q);
      RenderExtend(list, Elem);
      steps := list + [Elem];
    }
  }

  /** The position itself is in the schema, rather than one whose path reads like it. */
  ghost predicate CoveredPosition(schema: Schema, version: nat, steps: seq<Step>) {
    exists path :: schema.Covers(version, path) && Names(path, steps)
  }

  /** No position of the tree reads like a covered path without being plainly named. */
  ghost predicate NoImitation(schema: Schema, version: nat, payload: Json) {
    forall steps :: Occurs(payload, steps) && EndsInKey(steps) && schema.Covers(version, Render("", steps)) ==>
      PlainSteps(steps)
  }

  /** Fully covered means an empty walk and no imitation: then, and only then, every key of
      the tree stands at a covered position. */
  lemma EmptyIffCovered(schema: Schema, version: nat, payload: Json)
    ensures (forall steps :: Occurs(payload, steps) && EndsInKey(steps) ==>
               CoveredPosition(schema, version, steps)) <==>
            UnknownFields(schema, version, payload) == [] && NoImitation(schema, version, payload)
  {
    EmptyIff(schema, version, payload);
    forall steps | EndsInKey(steps)
      ensures CoveredPosition(schema, version, steps) <==>
              schema.Covers(version, Render("", steps)) && PlainSteps(steps)
    {
      assert PlainSteps(steps) ==> Names(Render("", steps), steps);
    }
  }

  // ---- the walk over a closed schema ----------------------------------------------------------

  /** The walk never stops above a covered field: nothing on the way to it is reported. */
  lemma NothingCoveredSkipped(schema: Schema, version: nat, payload: Json, steps: seq<Step>, n: nat)
    requires Closed(schema, version) && PlainSteps(steps) && schema.Covers(version, Render("", steps))
    requires 0 < n <= |steps| && steps[n - 1].Key?
    ensures Render("", steps[..n]) !in UnknownFields(schema, version, payload)
  {
    CoveredAbove(schema, version, steps, n);
    UnknownFieldsExact(schema, version, payload);
    var s := Render("", steps[..n]);
    if Found(schema, version, payload, "", s) {
      var found: seq<Step> :| Occurs(payload, found) && FirstUncovered(schema, version, "", found) &&
          Render("", found) == s;
      FirstUncoveredMeans(schema, version, "", found);
    }
  }

  /** The key closest above the last one. */
  predicate KeyAbove(steps: seq<Step>, n: nat) {
    0 < n < |steps| && steps[n - 1].Key? && forall i :: n <= i < |steps| - 1 ==> steps[i].Elem?
  }

  /** An uncovered field right below a covered one, or at the top. */
  ghost predicate UncoveredBelowCovered(schema: Schema, version: nat, steps: seq<Step>) {
    && EndsInKey(steps) && !schema.Covers(version, Render("", steps))
    && forall n: nat :: KeyAbove(steps, n) ==> schema.Covers(version, Render("", steps[..n]))
  }

  /** Under a closed schema a field is the first uncovered one on its path exactly when it
      is uncovered and the field right above it, if any, is covered. */
  lemma {:induction false} FirstUncoveredLocal(schema: Schema, version: nat, steps: seq<Step>)
    requires Closed(schema, version)
    requires forall n :: 0 < n < |steps| && steps[n - 1].Key? && schema.Covers(version, Render("", steps[..n])) ==>
               PlainSteps(steps[..n])
    ensures FirstUncovered(schema, version, "", steps) <==> UncoveredBelowCovered(schema, version, steps)
  {
    FirstUncoveredMeans(schema, version, "", steps);
    if UncoveredBelowCovered(schema, version, steps) {
      forall n | 0 < n < |steps| && steps[n - 1].Key? ensures schema.Covers(version, Render("", steps[..n])) {
        var top := ClosestKey(steps, n);
        CoveredAbove(schema, version, steps[..top], n);
        assert steps[..top][..n] == steps[..n];
      }
    }
  }

  lemma {:induction false} ClosestKey(steps: seq<Step>, n: nat) returns (top: nat)
    requires 0 < n < |steps| && steps[n - 1].Key?
    ensures n <= top && KeyAbove(steps, top)
    decreases |steps| - n
  {
    if i :| n <= i < |steps| - 1 && steps[i].Key? {
      top := ClosestKey(steps, i + 1);
    } else {
      top := n;
    }
  }

  /** The walk over a plainly named list: it reports exactly the uncovered fields of the list
      itself, of covered objects, and of the elements of covered arrays. */
  lemma {:induction false} ClosedUnknownExact(schema: Schema, version: nat, payload: Json, s: string)
    requires Closed(schema, version) && NoImitation(schema, version, payload)
    ensures s in UnknownFields(schema, version, payload) <==>
            exists steps :: Occurs(payload, steps) && Render("", steps) == s &&
                            UncoveredBelowCovered(schema, version, steps)
  {
    UnknownFieldsExact(schema, version, payload);
    forall steps | Occurs(payload, steps)
      ensures FirstUncovered(schema, version, "", steps) <==> UncoveredBelowCovered(schema, version, steps)
    {
      LocalAt(schema, version, payload, steps);
    }
  }

  lemma {:induction false} LocalAt(schema: Schema, version: nat, payload: Json, steps: seq<Step>)
    requires Closed(schema, version) && NoImitation(schema, version, payload) && Occurs(payload, steps)
    ensures FirstUncovered(schema, version, "", steps) <==> UncoveredBelowCovered(schema, version, steps)
  {
    forall n | 0 < n < |steps| && steps[n - 1].Key? && schema.Covers(version, Render("", steps[..n]))
      ensures PlainSteps(steps[..n])
    {
      PrefixOccurs(payload, steps, n);
    }
    FirstUncoveredLocal(schema, version, steps);
  }

  // ---- the two lists ---------------------------------------------------------------------

  lemma FieldsBelow(version: nat, owner: string, names: seq<string>)
    requires CoveredObject(SignedSchema(), version, owner) && AllPlain(names)
    ensures forall p :: p in Fields(owner, names) ==> FieldOfCovered(SignedSchema(), version, p)
  {
    forall p | p in Fields(owner, names) ensures FieldOfCovered(SignedSchema(), version, p) {
      var i :| 0 <= i < |names| && Fields(owner, names)[i] == p;
      assert PlainKey(names[i]);
    }
  }

  lemma PlainV10()
    ensures AllPlain(LIST_V10) && AllPlain(NODE_V10)
  {
  }

  lemma PlainNestedV10()
    ensures AllPlain(LOCATION_V10) && AllPlain(EGRESS_V10) && AllPlain(ENDPOINT_V10) && AllPlain(LISTENER_V10)
  {
  }

  lemma PlainV11()
    ensures AllPlain(LIST_V11) && AllPlain(NODE_V11)
  {
  }

  lemma PlainDescriptors()
    ensures AllPlain(RELAY_DESCRIPTOR_V11) && AllPlain(EXIT_DESCRIPTOR_V11)
  {
  }

  lemma FieldCovered(version: nat, owner: string, names: seq<string>, i: nat)
    requires i < |names| && forall p :: p in Fields(owner, names) ==> SignedSchema().Covers(version, p)
    ensures SignedSchema().Covers(version, ChildPath(owner, names[i]))
  {
    assert Fields(owner, names)[i] in Fields(owner, names);
  }

  lemma NodesV10(version: nat)
    ensures CoveredObject(SignedSchema(), version, NODE)
  {
    assert LIST_V10[1] == "nodes";
    FieldCovered(version, "", LIST_V10, 1);
  }

  lemma ObjectsV10(version: nat)
    ensures CoveredObject(SignedSchema(), version, LOCATION) && CoveredObject(SignedSchema(), version, EGRESS)
  {
    FieldCovered(version, NODE, NODE_V10, 2);
    FieldCovered(version, NODE, NODE_V10, 5);
  }

  lemma ArraysV10(version: nat)
    ensures CoveredObject(SignedSchema(), version, ENDPOINT) && CoveredObject(SignedSchema(), version, LISTENER)
  {
    FieldCovered(version, NODE, NODE_V10, 6);
    FieldCovered(version, ENDPOINT, ENDPOINT_V10, 2);
  }

  lemma ObjectsV11()
    ensures CoveredObject(SignedSchema(), SIGNED_VERSION_V2, RELAY_DESCRIPTOR) &&
            CoveredObject(SignedSchema(), SIGNED_VERSION_V2, EXIT_DESCRIPTOR)
  {
    FieldCovered(SIGNED_VERSION_V2, NODE, NODE_V11, 8);
    FieldCovered(SIGNED_VERSION_V2, NODE, NODE_V11, 9);
  }

  lemma V10Closed(version: nat, path: string)
    requires path in SignedSchema().v10
    ensures FieldOfCovered(SignedSchema(), version, path)
  {
    PlainV10();
    PlainNestedV10();
    NodesV10(version);
    ObjectsV10(version);
    ArraysV10(version);
    FieldsBelow(version, "", LIST_V10);
    FieldsBelow(version, NODE, NODE_V10);
    FieldsBelow(version, LOCATION, LOCATION_V10);
    FieldsBelow(version, EGRESS, EGRESS_V10);
    FieldsBelow(version, ENDPOINT, ENDPOINT_V10);
    FieldsBelow(version, LISTENER, LISTENER_V10);
  }

  lemma V11ExtraClosed(path: string)
    requires path in SignedSchema().v11Extra
    ensures FieldOfCovered(SignedSchema(), SIGNED_VERSION_V2, path)
  {
    PlainV11();
    PlainDescriptors();
    NodesV10(SIGNED_VERSION_V2);
    ObjectsV11();
    FieldsBelow(SIGNED_VERSION_V2, "", LIST_V11);
    FieldsBelow(SIGNED_VERSION_V2, NODE, NODE_V11);
    FieldsBelow(SIGNED_VERSION_V2, RELAY_DESCRIPTOR, RELAY_DESCRIPTOR_V11);
    FieldsBelow(SIGNED_VERSION_V2, EXIT_DESCRIPTOR, EXIT_DESCRIPTOR_V11);
  }

  /** Every covered path is a plainly named field of the list, of a covered object, or of the
      elements of a covered array, in both versions of the schema. */
  lemma SignedSchemaClosed(version: nat)
    ensures Closed(SignedSchema(), version)
  {
    forall p | SignedSchema().Covers(version, p) ensures FieldOfCovered(SignedSchema(), version, p) {
      if p in SignedSchema().v10 {
        V10Closed(version, p);
      } else {
        V11ExtraClosed(p);
      }
    }
  }

  /** The walk over a relay list that imitates no covered path, in both versions. */
  lemma SignedUnknownExact(version: nat, payload: Json, s: string)
    requires NoImitation(SignedSchema(), version, payload)
    ensures s in UnknownFields(SignedSchema(), version, payload) <==>
            exists steps :: Occurs(payload, steps) && Render("", steps) == s &&
                            UncoveredBelowCovered(SignedSchema(), version, steps)
  {
    SignedSchemaClosed(version);
    ClosedUnknownExact(SignedSchema(), version, payload, s);
  }

  const LITERAL_KEY: Json := Object([("nodes[].id", Scalar)])

  /** One top-level key that reads like a covered path: reported as fully covered in both
      versions, though no covered path names its position. */
  lemma LiteralKeyPasses(version: nat)
    ensures UnknownFields(SignedSchema(), version, LITERAL_KEY) == []
    ensures var steps := [Key("nodes[].id")];
            Occurs(LITERAL_KEY, steps) && EndsInKey(steps) && !CoveredPosition(SignedSchema(), version, steps)
  {
    var k, steps := "nodes[].id", [Key("nodes[].id")];
    NodeIdCovered(version);
    assert CollectFields(SignedSchema(), version, LITERAL_KEY, 0, "") == [];
    assert CollectField(SignedSchema(), version, LITERAL_KEY, 0, "") ==
        Collect(SignedSchema(), version, Scalar, k) == [];
    assert Collect(SignedSchema(), version, LITERAL_KEY, "") == [];
    assert LITERAL_KEY.fields[0] == (k, Scalar) && Occurs(Scalar, steps[1..]);
    assert IsStep(LITERAL_KEY, steps[0], Scalar);
    assert k[7] == '.' && steps[0].name == k;
    assert !PlainSteps(steps);
  }

  lemma NodeIdCovered(version: nat)
    ensures SignedSchema().Covers(version, "nodes[].id")
  {
    FieldCovered(version, NODE, NODE_V10, 0);
    assert ChildPath(NODE, NODE_V10[0]) == "nodes[].id";
  }

  const BELOW_LITERAL: Json := Object([("]", Scalar)])
  const LOOKALIKE: Json := Object([("nodes[]", Object([("id", BELOW_LITERAL)]))])

  lemma FieldEnds(schema: Schema, version: nat, path: string)
    requires FieldOfCovered(schema, version, path)
    ensures path != "" && path[|path| - 1] != ']'
  {
    var owner, k :| CoveredObject(schema, version, owner) && PlainKey(k) && path == ChildPath(owner, k);
    EnterEnds(owner, Key(k));
  }

  lemma NotCoveredEnd(version: nat, path: string)
    requires path != "" && path[|path| - 1] == ']'
    ensures !SignedSchema().Covers(version, path)
  {
    SignedSchemaClosed(version);
    if SignedSchema().Covers(version, path) {
      assert FieldOfCovered(SignedSchema(), version, path);
      FieldEnds(SignedSchema(), version, path);
    }
  }

  const LOOKALIKE_STEPS: seq<Step> := [Key("nodes[]"), Key("id"), Key("]")]

  /** An imitation hides what is below it: the walk stops at the key "nodes[]", while below it
      a key is uncovered with one above that reads like a covered path. */
  lemma ImitationHides(version: nat)
    ensures UnknownFields(SignedSchema(), version, LOOKALIKE) == ["nodes[]"]
    ensures Occurs(LOOKALIKE, LOOKALIKE_STEPS) && Render("", LOOKALIKE_STEPS) != "nodes[]"
    ensures UncoveredBelowCovered(SignedSchema(), version, LOOKALIKE_STEPS)
  {
    LookalikeWalk(version);
    LookalikeOccurs();
    LookalikeRender();
    NodeIdCovered(version);
    NotCoveredEnd(version, "nodes[].id.]");
    LookalikeLocal(SignedSchema(), version);
  }

  lemma LookalikeRender()
    ensures Render("", LOOKALIKE_STEPS[..2]) == "nodes[].id"
    ensures Render("", LOOKALIKE_STEPS) == "nodes[].id.]"
  {
    var first := [Key("nodes[]")];
    RenderExtend([], Key("nodes[]"));
    RenderExtend(first, Key("id"));
    RenderExtend(first + [Key("id")], Key("]"));
    assert [] + first == first;
    assert first + [Key("id")] == LOOKALIKE_STEPS[..2];
    assert first + [Key("id")] + [Key("]")] == LOOKALIKE_STEPS;
  }

  lemma LookalikeLocal(schema: Schema, version: nat)
    requires schema.Covers(version, "nodes[].id") && !schema.Covers(version, "nodes[].id.]")
    ensures UncoveredBelowCovered(schema, version, LOOKALIKE_STEPS)
  {
    LookalikeRender();
    assert LOOKALIKE_STEPS[1].Key?;
    assert forall n: nat :: KeyAbove(LOOKALIKE_STEPS, n) ==> n == 2;
  }

  lemma LookalikeWalk(version: nat)
    ensures UnknownFields(SignedSchema(), version, LOOKALIKE) == ["nodes[]"]
  {
    NotCoveredEnd(version, "nodes[]");
    assert CollectFields(SignedSchema(), version, LOOKALIKE, 0, "") == [];
    assert CollectField(SignedSchema(), version, LOOKALIKE, 0, "") == ["nodes[]"];
    assert Collect(SignedSchema(), version, LOOKALIKE, "") == ["nodes[]"];
  }

  lemma LookalikeOccurs()
    ensures Occurs(LOOKALIKE, LOOKALIKE_STEPS)
  {
    var steps := LOOKALIKE_STEPS;
    var node := Object([("id", BELOW_LITERAL)]);
    assert BELOW_LITERAL.fields[0] == ("]", Scalar) && node.fields[0] == ("id", BELOW_LITERAL);
    assert LOOKALIKE.fields[0] == ("nodes[]", node);
    assert steps[1..] == [Key("id"), Key("]")] && steps[1..][1..] == [Key("]")] && [Key("]")][1..] == [];
    assert IsStep(BELOW_LITERAL, Key("]"), Scalar) && Occurs(Scalar, []);
    assert IsStep(node, Key("id"), BELOW_LITERAL) && Occurs(BELOW_LITERAL, [Key("]")]);
    assert IsStep(LOOKALIKE, Key("nodes[]"), node) && Occurs(node, [Key("id"), Key("]")]);
  }

  // ---- the lists, spelled out ------------------------------------------------------------------

  /** The prefix, then one of the names. */
  ghost predicate Under(prefix: string, names: seq<string>, path: string) {
    exists k :: k in names && path == prefix + k
  }

  lemma FieldsSpelled(owner: string, prefix: string, names: seq<string>, path: string)
    requires owner != "" && prefix == owner + "."
    ensures path in Fields(owner, names) <==> Under(prefix, names, path)
  {
    if path in Fields(owner, names) {
      var i :| 0 <= i < |names| && Fields(owner, names)[i] == path;
      assert names[i] in names;
    }
    if Under(prefix, names, path) {
      var k :| k in names && path == prefix + k;
      var i :| 0 <= i < |names| && names[i] == k;
      assert Fields(owner, names)[i] == path;
    }
  }

  lemma TopSpelled(names: seq<string>, path: string)
    ensures path in Fields("", names) <==> path in names
  {
    assert Fields("", names) == names;
  }

  lemma PrefixesSpelled()
    ensures NODE + "." == "nodes[]." && LOCATION + "." == "nodes[].location." && EGRESS + "." == "nodes[].egress."
    ensures ENDPOINT + "." == "nodes[].endpoints[]." && LISTENER + "." == "nodes[].endpoints[].listeners[]."
  {
  }

  lemma DescriptorPrefixes()
    ensures RELAY_DESCRIPTOR + "." == "nodes[].relay_descriptor."
    ensures EXIT_DESCRIPTOR + "." == "nodes[].exit_descriptor."
  {
  }

  /** The 27 paths of version 10. */
  ghost predicate InV10(path: string) {
    || path in ["version", "nodes", "generation", "signed_at", "expires_at", "server_pubkey_hex", "signature_hex"]
    || Under("nodes[].", ["id", "exit_id", "location", "weight", "active", "egress", "endpoints", "cover_domain",
                          "port_forward", "tcp_fallback"], path)
    || Under("nodes[].location.", ["country", "city"], path)
    || Under("nodes[].egress.", ["ipv4", "ipv6"], path)
    || Under("nodes[].endpoints[].", ["addr", "family", "listeners"], path)
    || Under("nodes[].endpoints[].listeners[].", ["port", "transport", "alpn"], path)
  }

  /** The 27 paths version 11 adds. */
  ghost predicate InV11(path: string) {
    || path in ["operational_pubkey_hex", "operational_cert_hex", "directory_generation"]
    || Under("nodes[].", ["last_seen_unix", "stale", "name", "provider", "virt", "asn", "attestation_hex",
                          "edge_cert_sha256", "relay_descriptor", "exit_descriptor"], path)
    || Under("nodes[].relay_descriptor.", ["relay_id", "relay_ed25519_pubkey", "endpoint", "cover_domain",
                                           "tcp_fallback", "signature"], path)
    || Under("nodes[].exit_descriptor.", ["exit_id", "exit_ed25519_pubkey", "exit_x25519_multihop_pubkey", "endpoint",
                                          "cover_domain", "signature", "dns_disabled", "exit_mlkem768_pubkey"], path)
  }

  /** Version 10, and any other but 11, covers the first 27 paths; version 11 also the other 27. */
  lemma CoversMeans(version: nat, path: string)
    ensures SignedSchema().Covers(version, path) <==> InV10(path) || (version == 11 && InV11(path))
  {
    V10Means(path);
    V11Means(path);
  }

  lemma V10Means(path: string)
    ensures path in SignedSchema().v10 <==> InV10(path)
  {
    PrefixesSpelled();
    TopSpelled(LIST_V10, path);
    FieldsSpelled(NODE, "nodes[].", NODE_V10, path);
    FieldsSpelled(LOCATION, "nodes[].location.", LOCATION_V10, path);
    FieldsSpelled(EGRESS, "nodes[].egress.", EGRESS_V10, path);
    FieldsSpelled(ENDPOINT, "nodes[].endpoints[].", ENDPOINT_V10, path);
    FieldsSpelled(LISTENER, "nodes[].endpoints[].listeners[].", LISTENER_V10, path);
  }

  lemma V11Means(path: string)
    ensures path in SignedSchema().v11Extra <==> InV11(path)
  {
    PrefixesSpelled();
    DescriptorPrefixes();
    TopSpelled(LIST_V11, path);
    FieldsSpelled(NODE, "nodes[].", NODE_V11, path);
    FieldsSpelled(RELAY_DESCRIPTOR, "nodes[].relay_descriptor.", RELAY_DESCRIPTOR_V11, path);
    FieldsSpelled(EXIT_DESCRIPTOR, "nodes[].exit_descriptor.", EXIT_DESCRIPTOR_V11, path);
  }
}
