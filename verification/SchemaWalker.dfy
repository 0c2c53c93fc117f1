/** The schema walker: which fields of a served relay list the signed schema does not
    cover. Exact on every JSON tree, and monotone from schema v10 to v11. */
module SchemaWalker {
  import opened Order

  /** A JSON value, as far as the walker looks. */
  datatype Json = Scalar | Array(items: seq<Json>) | Object(fields: seq<(string, Json)>)

  const SIGNED_VERSION := 10
  const SIGNED_VERSION_V2 := 11

  /** The covered paths of v10, and those v11 adds. */
  datatype Schema = Schema(v10: seq<string>, v11Extra: seq<string>) {
    predicate Covers(version: nat, path: string) {
      path in v10 || (version == SIGNED_VERSION_V2 && path in v11Extra)
    }
  }

  function ChildPath(path: string, key: string): string {
    if path == "" then key else path + "." + key
  }

  function ElemPath(path: string): string {
    path + "[]"
  }

  /** The paths of some fields of one object. */
  function Fields(owner: string, names: seq<string>): (r: seq<string>)
    ensures |r| == |names| && forall i :: 0 <= i < |names| ==> r[i] == ChildPath(owner, names[i])
  {
    seq(|names|, i requires 0 <= i < |names| => ChildPath(owner, names[i]))
  }

  const NODE := ElemPath("nodes")
  const LOCATION := ChildPath(NODE, "location")
  const EGRESS := ChildPath(NODE, "egress")
  const ENDPOINT := ElemPath(ChildPath(NODE, "endpoints"))
  const LISTENER := ElemPath(ChildPath(ENDPOINT, "listeners"))
  const RELAY_DESCRIPTOR := ChildPath(NODE, "relay_descriptor")
  const EXIT_DESCRIPTOR := ChildPath(NODE, "exit_descriptor")

  const LIST_V10 := ["version", "nodes", "generation", "signed_at", "expires_at", "server_pubkey_hex", "signature_hex"]
  const NODE_V10 := ["id", "exit_id", "location", "weight", "active", "egress", "endpoints", "cover_domain",
                     "port_forward", "tcp_fallback"]
  const LOCATION_V10 := ["country", "city"]
  const EGRESS_V10 := ["ipv4", "ipv6"]
  const ENDPOINT_V10 := ["addr", "family", "listeners"]
  const LISTENER_V10 := ["port", "transport", "alpn"]

  const LIST_V11 := ["operational_pubkey_hex", "operational_cert_hex", "directory_generation"]
  const NODE_V11 := ["last_seen_unix", "stale", "name", "provider", "virt", "asn", "attestation_hex",
                     "edge_cert_sha256", "relay_descriptor", "exit_descriptor"]
  const RELAY_DESCRIPTOR_V11 := ["relay_id", "relay_ed25519_pubkey", "endpoint", "cover_domain", "tcp_fallback",
                                 "signature"]
  const EXIT_DESCRIPTOR_V11 := ["exit_id", "exit_ed25519_pubkey", "exit_x25519_multihop_pubkey", "endpoint",
                                "cover_domain", "signature", "dns_disabled", "exit_mlkem768_pubkey"]

  /** The two path lists of the relay-list schema, grouped by the object the fields are of. */
  function SignedSchema(): Schema {
    Schema(
      Fields("", LIST_V10) + Fields(NODE, NODE_V10) + Fields(LOCATION, LOCATION_V10) + Fields(EGRESS, EGRESS_V10) +
      Fields(ENDPOINT, ENDPOINT_V10) + Fields(LISTENER, LISTENER_V10),
      Fields("", LIST_V11) + Fields(NODE, NODE_V11) + Fields(RELAY_DESCRIPTOR, RELAY_DESCRIPTOR_V11) +
      Fields(EXIT_DESCRIPTOR, EXIT_DESCRIPTOR_V11))
  }

  // ---- the walk ----------------------------------------------------------------------

  function Collect(schema: Schema, version: nat, value: Json, path: string): seq<string>
    decreases value, 1, 0
  {
    match value
    case Scalar => []
    case Array(items) => CollectItems(schema, version, value, |items|, path)
    case Object(fields) => CollectFields(schema, version, value, |fields|, path)
  }

  /** The unknown paths below the first `n` fields of an object. */
  function CollectFields(schema: Schema, version: nat, value: Json, n: nat, path: string): seq<string>
    requires value.Object? && n <= |value.fields|
    decreases value, 0, n
  {
    if n == 0 then []
    else CollectFields(schema, version, value, n - 1, path) + CollectField(schema, version, value, n - 1, path)
  }

  function CollectField(schema: Schema, version: nat, value: Json, i: nat, path: string): seq<string>
    requires value.Object? && i < |value.fields|
    decreases value, 0, 0
  {
    var (key, child) := value.fields[i];
    var next := ChildPath(path, key);
    if schema.Covers(version, next) then Collect(schema, version, child, next) else [next]
  }

  /** The unknown paths below the first `n` elements of an array. */
  function CollectItems(schema: Schema, version: nat, value: Json, n: nat, path: string): seq<string>
    requires value.Array? && n <= |value.items|
    decreases value, 0, n
  {
    if n == 0 then []
    else CollectItems(schema, version, value, n - 1, path) +
         Collect(schema, version, value.items[n - 1], ElemPath(path))
  }

  /** The recursion pushes onto one shared list. */
  method CollectUnknownFields(schema: Schema, version: nat, value: Json, path: string, out: seq<string>)
    returns (r: seq<string>)
    ensures r == out + Collect(schema, version, value, path)
    decreases value
  {
    r := out;
    match value
    case Scalar =>
    case Array(items) =>
      var elemPath := ElemPath(path);
      for i := 0 to |items|
        invariant r == out + CollectItems(schema, version, value, i, path)
      {
        r := CollectUnknownFields(schema, version, items[i], elemPath, r);
      }
    case Object(fields) =>
      for i := 0 to |fields|
        invariant r == out + CollectFields(schema, version, value, i, path)
      {
        var (key, child) := fields[i];
        var childPath := ChildPath(path, key);
        if schema.Covers(version, childPath) {
          r := CollectUnknownFields(schema, version, child, childPath, r);
        } else {
          r := r + [childPath];
        }
      }
  }

  // ---- what it finds --------------------------------------------------------------------

  /** A step into a JSON tree: a key of an object, or some element of an array. */
  datatype Step = Key(name: string) | Elem

  function Enter(path: string, step: Step): string {
    match step case Key(k) => ChildPath(path, k) case Elem => ElemPath(path)
  }

  function Render(path: string, steps: seq<Step>): string
    decreases |steps|
  {
    if steps == [] then path else Render(Enter(path, steps[0]), steps[1..])
  }

  ghost predicate IsStep(value: Json, step: Step, child: Json) {
    match step
    case Key(k) => value.Object? && (k, child) in value.fields
    case Elem => value.Array? && child in value.items
  }

  ghost predicate Occurs(value: Json, steps: seq<Step>)
    decreases |steps|
  {
    steps == [] || exists child :: IsStep(value, steps[0], child) && Occurs(child, steps[1..])
  }

  predicate EndsInKey(steps: seq<Step>) {
    steps != [] && steps[|steps| - 1].Key?
  }

  /** The last key is uncovered and every key above it is covered. */
  predicate FirstUncovered(schema: Schema, version: nat, path: string, steps: seq<Step>)
    decreases |steps|
  {
    steps != [] &&
    var next := Enter(path, steps[0]);
    if steps[0].Elem? then FirstUncovered(schema, version, next, steps[1..])
    else if schema.Covers(version, next) then FirstUncovered(schema, version, next, steps[1..])
    else |steps| == 1
  }

  lemma {:induction false} FirstUncoveredMeans(schema: Schema, version: nat, path: string, steps: seq<Step>)
    ensures FirstUncovered(schema, version, path, steps) <==>
            EndsInKey(steps) && !schema.Covers(version, Render(path, steps)) &&
            forall n :: 0 < n < |steps| && steps[n - 1].Key? ==> schema.Covers(version, Render(path, steps[..n]))
    decreases |steps|
  {
    if steps != [] {
      var next, rest := Enter(path, steps[0]), steps[1..];
      FirstUncoveredMeans(schema, version, next, rest);
      forall n | 0 < n < |steps| ensures Render(path, steps[..n]) == Render(next, rest[..n - 1]) {
        assert steps[..n][1..] == rest[..n - 1];
      }
      if |steps| > 1 {
        assert Render(path, steps[..1]) == next;
        assert forall m :: 0 < m < |rest| && rest[m - 1].Key? ==>
          steps[m].Key? && Render(next, rest[..m]) == Render(path, steps[..m + 1]);
      }
    }
  }

  /** A path is found exactly when it renders some position of the tree whose last key is
      uncovered with every key above it covered. */
  ghost predicate Found(schema: Schema, version: nat, value: Json, path: string, s: string) {
    exists steps :: Occurs(value, steps) && FirstUncovered(schema, version, path, steps) && Render(path, steps) == s
  }

  lemma FoundBelow(schema: Schema, version: nat, value: Json, path: string, step: Step, child: Json, steps: seq<Step>)
    requires IsStep(value, step, child) && Occurs(child, steps)
    requires step.Key? ==> schema.Covers(version, Enter(path, step))
    requires FirstUncovered(schema, version, Enter(path, step), steps)
    ensures Found(schema, version, value, path, Render(Enter(path, step), steps))
  {
    var all := [step] + steps;
    assert all[1..] == steps;
    assert Occurs(value, all) && FirstUncovered(schema, version, path, all);
  }

  lemma FoundHere(schema: Schema, version: nat, value: Json, path: string, key: string, child: Json)
    requires IsStep(value, Key(key), child) && !schema.Covers(version, ChildPath(path, key))
    ensures Found(schema, version, value, path, ChildPath(path, key))
  {
    var steps := [Key(key)];
    assert Occurs(child, steps[1..]);
    assert Render(path, steps) == ChildPath(path, key);
    assert Occurs(value, steps) && FirstUncovered(schema, version, path, steps);
  }

  /** A found path goes through one step from the top. */
  lemma FoundStep(schema: Schema, version: nat, value: Json, path: string, s: string) returns (step: Step, child: Json)
    requires Found(schema, version, value, path, s)
    ensures IsStep(value, step, child)
    ensures var next := Enter(path, step);
            if step.Elem? || schema.Covers(version, next) then Found(schema, version, child, next, s) else s == next
  {
    var steps: seq<Step> :| Occurs(value, steps) && FirstUncovered(schema, version, path, steps) &&
        Render(path, steps) == s;
    step := steps[0];
    child :| IsStep(value, step, child) && Occurs(child, steps[1..]);
    var next := Enter(path, step);
    assert Render(next, steps[1..]) == s;
    if step.Elem? || schema.Covers(version, next) {
      assert FirstUncovered(schema, version, next, steps[1..]);
    }
  }

  /** `s` is found through field `i` of an object. */
  ghost predicate FieldHit(schema: Schema, version: nat, value: Json, i: nat, path: string, s: string)
    requires value.Object? && i < |value.fields|
  {
    var (k, child) := value.fields[i];
    var next := ChildPath(path, k);
    if schema.Covers(version, next) then Found(schema, version, child, next, s) else s == next
  }

  lemma {:induction false} CollectExact(schema: Schema, version: nat, value: Json, path: string, s: string)
    ensures s in Collect(schema, version, value, path) <==> Found(schema, version, value, path, s)
    decreases value, 1, 0
  {
    match value {
      case Scalar =>
      case Array(items) =>
        ItemsExact(schema, version, value, |items|, path, s);
        assert items[..|items|] == items;
      case Object(fields) =>
        FieldsExact(schema, version, value, |fields|, path, s);
    }
    if Found(schema, version, value, path, s) {
      var step, child := FoundStep(schema, version, value, path, s);
      if value.Object? {
        var i :| 0 <= i < |value.fields| && value.fields[i] == (step.name, child);
        assert FieldHit(schema, version, value, i, path, s);
      }
    }
  }

  lemma {:induction false} FieldsExact(schema: Schema, version: nat, value: Json, n: nat, path: string, s: string)
    requires value.Object? && n <= |value.fields|
    ensures s in CollectFields(schema, version, value, n, path) ==> Found(schema, version, value, path, s)
    ensures forall i :: 0 <= i < n && FieldHit(schema, version, value, i, path, s) ==>
              s in CollectFields(schema, version, value, n, path)
    decreases value, 0, n
  {
    if n > 0 {
      FieldsExact(schema, version, value, n - 1, path, s);
      FieldExact(schema, version, value, n - 1, path, s);
    }
  }

  lemma {:induction false} FieldExact(schema: Schema, version: nat, value: Json, i: nat, path: string, s: string)
    requires value.Object? && i < |value.fields|
    ensures s in CollectField(schema, version, value, i, path) <==> FieldHit(schema, version, value, i, path, s)
    ensures FieldHit(schema, version, value, i, path, s) ==> Found(schema, version, value, path, s)
    decreases value, 0, 0
  {
    var (k, child) := value.fields[i];
    assert (k, child) in value.fields && IsStep(value, Key(k), child);
    var next := ChildPath(path, k);
    if schema.Covers(version, next) {
      CollectExact(schema, version, child, next, s);
      if Found(schema, version, child, next, s) {
        var steps :| Occurs(child, steps) && FirstUncovered(schema, version, next, steps) && Render(next, steps) == s;
        assert Enter(path, Key(k)) == next;
        FoundBelow(schema, version, value, path, Key(k), child, steps);
      }
    } else {
      FoundHere(schema, version, value, path, k, child);
    }
  }

  lemma {:induction false} ItemsExact(schema: Schema, version: nat, value: Json, n: nat, path: string, s: string)
    requires value.Array? && n <= |value.items|
    ensures s in CollectItems(schema, version, value, n, path) ==> Found(schema, version, value, path, s)
    ensures forall child :: child in value.items[..n] && Found(schema, version, child, ElemPath(path), s) ==>
              s in CollectItems(schema, version, value, n, path)
    decreases value, 0, n
  {
    if n > 0 {
      ItemsExact(schema, version, value, n - 1, path, s);
      var child := value.items[n - 1];
      assert child in value.items && IsStep(value, Elem, child);
      assert value.items[..n] == value.items[..n - 1] + [child];
      CollectExact(schema, version, child, ElemPath(path), s);
      if Found(schema, version, child, ElemPath(path), s) {
        var steps :| Occurs(child, steps) && FirstUncovered(schema, version, ElemPath(path), steps) &&
            Render(ElemPath(path), steps) == s;
        FoundBelow(schema, version, value, path, Elem, child, steps);
      }
    }
  }

  // ---- sorted, deduplicated ---------------------------------------------------------------

  function Dedup(s: seq<string>): seq<string> {
    if |s| <= 1 then s else if s[0] == s[1] then Dedup(s[1..]) else [s[0]] + Dedup(s[1..])
  }

  ghost predicate StrictlyIncreasing(s: seq<string>) {
    forall i, j :: 0 <= i < j < |s| ==> CmpString(s[i], s[j]) == Less
  }

  lemma {:induction false} DedupSorted(s: seq<string>)
    requires SortedBy(s, CmpString)
    ensures StrictlyIncreasing(Dedup(s))
    ensures forall x :: x in Dedup(s) <==> x in s
  {
    if |s| > 1 {
      assert s == [s[0]] + s[1..];
      DedupSorted(s[1..]);
      if s[0] != s[1] {
        var r := Dedup(s[1..]);
        forall k | 0 <= k < |r| ensures CmpString(s[0], r[k]) == Less {
          assert r[k] in s[1..];
          StrictlyAbove(s, r[k]);
        }
      }
    }
  }

  lemma StrictlyAbove(s: seq<string>, x: string)
    requires SortedBy(s, CmpString) && |s| > 1 && s[0] != s[1] && x in s[1..]
    ensures CmpString(s[0], x) == Less
  {
    StringTotal();
    var i :| 1 <= i < |s| && s[i] == x;
    assert CmpString(s[0], s[1]) == Less && CmpString(s[0], s[i]) != Greater;
    if i > 1 {
      assert CmpString(s[1], s[i]) != Greater;
    }
  }

  function UnknownFields(schema: Schema, version: nat, payload: Json): seq<string> {
    Dedup(StableSort(Collect(schema, version, payload, ""), CmpString))
  }

  method UnknownSignedFieldsFor(schema: Schema, version: nat, payload: Json) returns (out: seq<string>)
    ensures out == UnknownFields(schema, version, payload)
  {
    out := CollectUnknownFields(schema, version, payload, "", []);
    assert out == Collect(schema, version, payload, "");
    out := StableSort(out, CmpString);
    out := Dedup(out);
  }

  /** The result is the strictly increasing list of exactly the found paths. */
  lemma UnknownFieldsExact(schema: Schema, version: nat, payload: Json)
    ensures StrictlyIncreasing(UnknownFields(schema, version, payload))
    ensures forall s :: s in UnknownFields(schema, version, payload) <==> Found(schema, version, payload, "", s)
  {
    var out := Collect(schema, version, payload, "");
    StringTotal();
    SortSorted(out, CmpString);
    var sorted := StableSort(out, CmpString);
    DedupSorted(sorted);
    forall s ensures s in UnknownFields(schema, version, payload) <==> Found(schema, version, payload, "", s) {
      CollectExact(schema, version, payload, "", s);
      assert s in sorted <==> s in multiset(sorted);
      assert s in out <==> s in multiset(out);
    }
  }

  // ---- emptiness and the two versions ---------------------------------------------------------

  lemma {:induction false} PrefixOccurs(value: Json, steps: seq<Step>, n: nat)
    requires Occurs(value, steps) && n <= |steps|
    ensures Occurs(value, steps[..n])
    decreases n
  {
    if n > 0 {
      var child :| IsStep(value, steps[0], child) && Occurs(child, steps[1..]);
      PrefixOccurs(child, steps[1..], n - 1);
      assert steps[..n][1..] == steps[1..][..n - 1];
    }
  }

  /** Above or at an uncovered key there is a first uncovered one. */
  lemma {:induction false} SomeFirstUncovered(schema: Schema, version: nat, path: string, steps: seq<Step>)
    returns (n: nat)
    requires EndsInKey(steps) && !schema.Covers(version, Render(path, steps))
    ensures n <= |steps| && FirstUncovered(schema, version, path, steps[..n])
    decreases |steps|
  {
    var next, rest := Enter(path, steps[0]), steps[1..];
    if steps[0].Key? && !schema.Covers(version, next) {
      n := 1;
    } else {
      var m := SomeFirstUncovered(schema, version, next, rest);
      n := m + 1;
      assert steps[..n][1..] == rest[..m];
    }
  }

  lemma UncoveredIsReported(schema: Schema, version: nat, payload: Json, steps: seq<Step>) returns (s: string)
    requires Occurs(payload, steps) && EndsInKey(steps) && !schema.Covers(version, Render("", steps))
    ensures s in UnknownFields(schema, version, payload)
  {
    UnknownFieldsExact(schema, version, payload);
    var n := SomeFirstUncovered(schema, version, "", steps);
    PrefixOccurs(payload, steps, n);
    s := Render("", steps[..n]);
  }

  /** Nothing is reported exactly when every key path of the tree is covered. */
  lemma EmptyIff(schema: Schema, version: nat, payload: Json)
    ensures UnknownFields(schema, version, payload) == [] <==>
            forall steps :: Occurs(payload, steps) && EndsInKey(steps) ==> schema.Covers(version, Render("", steps))
  {
    UnknownFieldsExact(schema, version, payload);
    var unknown := UnknownFields(schema, version, payload);
    if unknown == [] {
      forall steps | Occurs(payload, steps) && EndsInKey(steps) ensures schema.Covers(version, Render("", steps)) {
        if !schema.Covers(version, Render("", steps)) {
          var s := UncoveredIsReported(schema, version, payload, steps);
        }
      }
    } else {
      assert unknown[0] in unknown;
      var steps: seq<Step> :| Occurs(payload, steps) && FirstUncovered(schema, version, "", steps) &&
          Render("", steps) == unknown[0];
      FirstUncoveredMeans(schema, version, "", steps);
    }
  }

  /** Every path v11 reports has an ancestor, or itself, that v10 reports. */
  lemma {:induction false} V11UnknownHasV10Ancestor(schema: Schema, payload: Json, s: string)
    returns (steps: seq<Step>, n: nat)
    requires s in UnknownFields(schema, SIGNED_VERSION_V2, payload)
    ensures Occurs(payload, steps) && Render("", steps) == s && n <= |steps|
    ensures Render("", steps[..n]) in UnknownFields(schema, SIGNED_VERSION, payload)
  {
    UnknownFieldsExact(schema, SIGNED_VERSION_V2, payload);
    UnknownFieldsExact(schema, SIGNED_VERSION, payload);
    steps :| Occurs(payload, steps) && FirstUncovered(schema, SIGNED_VERSION_V2, "", steps) && Render("", steps) == s;
    FirstUncoveredMeans(schema, SIGNED_VERSION_V2, "", steps);
    n := SomeFirstUncovered(schema, SIGNED_VERSION, "", steps);
    PrefixOccurs(payload, steps, n);
  }

  /** A list v10 covers is covered by v11. */
  lemma V10CoversV11Covers(schema: Schema, payload: Json)
    requires UnknownFields(schema, SIGNED_VERSION, payload) == []
    ensures UnknownFields(schema, SIGNED_VERSION_V2, payload) == []
  {
    var unknown := UnknownFields(schema, SIGNED_VERSION_V2, payload);
    if unknown != [] {
      assert unknown[0] in unknown;
      var steps, n := V11UnknownHasV10Ancestor(schema, payload, unknown[0]);
    }
  }
}
