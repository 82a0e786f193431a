/** The validation tally of the format probe: which distinct object types a
    document declares, how many of them the object registry knows, and the
    verdict "every declared object type is registered". */
module Validation {
  import opened XmlTree

  const ObjectTag: string := "object"
  const ObjectTypeAttr: string := "type"

  predicate IsObject(n: Node, ns: Option<Namespace>)
  {
    IsElement(Some(n), ns, Some(ObjectTag))
  }

  /** Every object declaration among `nodes` carries a `type` attribute, as
      the object schema demands of a valid document. The tally hashes that
      attribute and would dereference a null pointer without it. */
  predicate DeclarationsTyped(nodes: seq<Node>, ns: Option<Namespace>)
  {
    forall i :: 0 <= i < |nodes| && IsObject(nodes[i], ns) ==> ObjectTypeAttr in nodes[i].attrs
  }

  /** The same, one level further down: for the children of every node. */
  predicate GrandchildrenTyped(children: seq<Node>, ns: Option<Namespace>)
  {
    forall i :: 0 <= i < |children| ==> DeclarationsTyped(children[i].children, ns)
  }

  /** The type names declared by the object elements among `nodes`. */
  ghost function DeclaredTypes(nodes: seq<Node>, ns: Option<Namespace>): set<string>
  {
    set i | 0 <= i < |nodes| && IsObject(nodes[i], ns) && ObjectTypeAttr in nodes[i].attrs
      :: nodes[i].attrs[ObjectTypeAttr]
  }

  /** The type names declared by object elements that are grandchildren of
      `root`, in the root's own namespace: where the probe looks for them. */
  ghost function ObjectTypes(root: Node): set<string>
  {
    set i, t | 0 <= i < |root.children| && t in DeclaredTypes(root.children[i].children, root.ns) :: t
  }

  /** The validator state: the table of type names seen (used as a set),
      the count of distinct object types and the count of registered ones. */
  datatype Tally = Tally(table: set<string>, validObjectCount: nat, registeredCount: nat)

  /** The entries of the table that `qof_class_is_registered` accepts;
      `registry` is the set of type names the object registry knows. */
  function Registered(table: set<string>, registry: set<string>): set<string>
  {
    table * registry
  }

  /** The counters agree with the table: one distinct count per table entry,
      one registered count per entry the registry accepts. */
  ghost predicate Consistent(t: Tally, registry: set<string>)
  {
    && t.validObjectCount == |t.table|
    && t.registeredCount == |Registered(t.table, registry)|
  }

  /** One object declaration: insert its type into the table; the counters
      move only when the table grew, i.e. when the type was new. */
  function Insert(t: Tally, decl: string, registry: set<string>): (r: Tally)
    ensures r.table == t.table + {decl}
    ensures decl in t.table ==> r == t
    ensures decl !in t.table ==>
      && r.validObjectCount == t.validObjectCount + 1
      && r.registeredCount == t.registeredCount + (if decl in registry then 1 else 0)
    ensures Consistent(t, registry) ==> Consistent(r, registry)
  {
    var before := |t.table|;
    var table := t.table + {decl};
    if decl in t.table then
      assert table == t.table;
      t.(table := table)
    else
      assert |table| == before + 1;
      assert Registered(table, registry) ==
        Registered(t.table, registry) + (if decl in registry then {decl} else {});
      // The C tests the table's growth (`> count`) rather than membership;
      // for a new type that test always holds, so the last branch is dead.
      if |table| > before then
        Tally(table, t.validObjectCount + 1,
              if decl in registry then t.registeredCount + 1 else t.registeredCount)
      else t.(table := table)
  }

  /** The loop of `qsf_object_validation_handler` over one node's children:
      each object element contributes its `type`. */
  function Scan(nodes: seq<Node>, ns: Option<Namespace>, registry: set<string>, t: Tally): (r: Tally)
    requires DeclarationsTyped(nodes, ns)
    ensures r.table == t.table + DeclaredTypes(nodes, ns)
    ensures Consistent(t, registry) ==> Consistent(r, registry)
    decreases |nodes|
  {
    if |nodes| == 0 then t
    else
      DeclarationsTypedTail(nodes, ns);
      DeclaredTypesUncons(nodes, ns);
      if IsObject(nodes[0], ns) then
        Scan(nodes[1..], ns, registry, Insert(t, nodes[0].attrs[ObjectTypeAttr], registry))
      else
        Scan(nodes[1..], ns, registry, t)
  }

  lemma DeclarationsTypedTail(nodes: seq<Node>, ns: Option<Namespace>)
    requires |nodes| > 0 && DeclarationsTyped(nodes, ns)
    ensures DeclarationsTyped(nodes[1..], ns)
  {
    forall i | 0 <= i < |nodes[1..]| && IsObject(nodes[1..][i], ns)
      ensures ObjectTypeAttr in nodes[1..][i].attrs
    {
      assert nodes[1..][i] == nodes[i + 1];
    }
  }

  lemma DeclaredTypesUncons(nodes: seq<Node>, ns: Option<Namespace>)
    requires |nodes| > 0
    ensures DeclaredTypes(nodes, ns) ==
      DeclaredTypes(nodes[1..], ns) +
      (if IsObject(nodes[0], ns) && ObjectTypeAttr in nodes[0].attrs then {nodes[0].attrs[ObjectTypeAttr]} else {})
  {
    var head := if IsObject(nodes[0], ns) && ObjectTypeAttr in nodes[0].attrs then {nodes[0].attrs[ObjectTypeAttr]} else {};
    forall x | x in DeclaredTypes(nodes, ns)
      ensures x in DeclaredTypes(nodes[1..], ns) + head
    {
      var i :| 0 <= i < |nodes| && IsObject(nodes[i], ns) && ObjectTypeAttr in nodes[i].attrs && nodes[i].attrs[ObjectTypeAttr] == x;
      if i > 0 {
        assert nodes[1..][i - 1] == nodes[i];
      }
    }
    forall x | x in DeclaredTypes(nodes[1..], ns)
      ensures x in DeclaredTypes(nodes, ns)
    {
      var i :| 0 <= i < |nodes[1..]| && IsObject(nodes[1..][i], ns) && ObjectTypeAttr in nodes[1..][i].attrs && nodes[1..][i].attrs[ObjectTypeAttr] == x;
      assert nodes[1..][i] == nodes[i + 1];
    }
  }

  /** `qsf_object_validation_handler`, the callback handed to the traversal
      of the root's children. */
  function ValidationHandler(child: Node, ns: Option<Namespace>, registry: set<string>, t: Tally): (r: Tally)
    requires DeclarationsTyped(child.children, ns)
    ensures r.table == t.table + DeclaredTypes(child.children, ns)
    ensures Consistent(t, registry) ==> Consistent(r, registry)
  {
    Scan(child.children, ns, registry, t)
  }

  function ValidationCallback(registry: set<string>): (Node, Option<Namespace>, Tally) --> Tally
  {
    (child: Node, ns: Option<Namespace>, t: Tally) requires DeclarationsTyped(child.children, ns) =>
      ValidationHandler(child, ns, registry, t)
  }

  lemma CallbackAcceptsTypedChildren(children: seq<Node>, ns: Option<Namespace>, registry: set<string>)
    requires GrandchildrenTyped(children, ns)
    ensures Accepts(ValidationCallback(registry), children, ns)
  {
  }

  /** Traversing children with the validation handler adds exactly the types
      declared among their children and keeps the counters consistent. */
  lemma {:induction false} TallyOverChildren(children: seq<Node>, ns: Option<Namespace>, registry: set<string>, t: Tally)
    requires GrandchildrenTyped(children, ns)
    ensures Accepts(ValidationCallback(registry), children, ns)
    ensures var r := Foreach(children, ns, ValidationCallback(registry), t);
      && r.table == t.table + (set i, x | 0 <= i < |children| && x in DeclaredTypes(children[i].children, ns) :: x)
      && (Consistent(t, registry) ==> Consistent(r, registry))
    decreases |children|
  {
    CallbackAcceptsTypedChildren(children, ns, registry);
    if |children| > 0 {
      var cb := ValidationCallback(registry);
      var t' := ValidationHandler(children[0], ns, registry, t);
      assert cb(children[0], ns, t) == t';
      assert GrandchildrenTyped(children[1..], ns) by {
        forall i | 0 <= i < |children[1..]| ensures DeclarationsTyped(children[1..][i].children, ns) {
          assert children[1..][i] == children[i + 1];
        }
      }
      TallyOverChildren(children[1..], ns, registry, t');
      var all := set i, x | 0 <= i < |children| && x in DeclaredTypes(children[i].children, ns) :: x;
      var rest := set i, x | 0 <= i < |children[1..]| && x in DeclaredTypes(children[1..][i].children, ns) :: x;
      assert all == DeclaredTypes(children[0].children, ns) + rest by {
        forall x | x in all ensures x in DeclaredTypes(children[0].children, ns) + rest {
          var i :| 0 <= i < |children| && x in DeclaredTypes(children[i].children, ns);
          if i > 0 {
            assert children[1..][i - 1] == children[i];
          }
        }
        forall x | x in rest ensures x in all {
          var i :| 0 <= i < |children[1..]| && x in DeclaredTypes(children[1..][i].children, ns);
          assert children[1..][i] == children[i + 1];
        }
      }
    }
  }

  /** The tally of a whole document, started from an empty table: the table
      holds exactly the declared object types, and the counters agree with it. */
  function RunTally(root: Node, registry: set<string>): (r: Tally)
    requires GrandchildrenTyped(root.children, root.ns)
    ensures r.table == ObjectTypes(root)
    ensures r.validObjectCount == |r.table|
    ensures r.registeredCount == |Registered(r.table, registry)|
    ensures r.registeredCount <= r.validObjectCount
  {
    TallyOverChildren(root.children, root.ns, registry, Tally({}, 0, 0));
    var r := Foreach(root.children, root.ns, ValidationCallback(registry), Tally({}, 0, 0));
    assert Registered(r.table, registry) <= r.table;
    SubsetCardinality(Registered(r.table, registry), r.table);
    r
  }

  lemma SubsetCardinality(a: set<string>, b: set<string>)
    requires a <= b
    ensures |a| <= |b|
    ensures |a| == |b| ==> a == b
  {
    if a != b {
      var x :| x in b && x !in a;
      assert a <= b - {x};
      SubsetCardinality(a, b - {x});
    }
  }

  /** `table_count == qof_registered_count`. */
  predicate Verdict(t: Tally)
  {
    |t.table| == t.registeredCount
  }

  /** Equal counts mean exactly that every distinct type is registered. */
  lemma VerdictMeansAllRegistered(t: Tally, registry: set<string>)
    requires Consistent(t, registry)
    ensures Verdict(t) <==> forall x :: x in t.table ==> x in registry
  {
    var reg := Registered(t.table, registry);
    assert reg <= t.table;
    SubsetCardinality(reg, t.table);
    if forall x :: x in t.table ==> x in registry {
      assert reg == t.table;
    }
    if Verdict(t) {
      assert reg == t.table;
      forall x | x in t.table ensures x in registry {
        assert x in reg;
      }
    }
  }

  /** `is_our_qsf_object`: false for a missing path, an unparsable file or a
      schema failure; otherwise true exactly when every distinct object type
      declared among the root's grandchildren is registered. Parsing and
      schema validation are outside this model: `parsed` is what the parser
      produced (`None` for a failure) and `schemaValid` the validator's
      verdict on it. */
  function IsOurQsfObject(path: Option<string>, parsed: Option<Node>, schemaValid: bool, registry: set<string>): (r: bool)
    requires path.Some? && parsed.Some? && schemaValid ==> GrandchildrenTyped(parsed.value.children, parsed.value.ns)
    ensures r <==>
      && path.Some? && parsed.Some? && schemaValid
      && forall x :: x in ObjectTypes(parsed.value) ==> x in registry
  {
    if path.None? then false
    else if parsed.None? then false
    else if !schemaValid then false
    else
      var valid := RunTally(parsed.value, registry);
      VerdictMeansAllRegistered(valid, registry);
      Verdict(valid)
  }

  /** A valid document without any object declaration is accepted. */
  lemma EmptyDocumentIsOurs(path: string, root: Node, registry: set<string>)
    requires forall i, j :: 0 <= i < |root.children| && 0 <= j < |root.children[i].children| ==>
      !IsObject(root.children[i].children[j], root.ns)
    ensures IsOurQsfObject(Some(path), Some(root), true, registry)
  {
    assert ObjectTypes(root) == {};
  }

  /** Adding a node whose object declarations only repeat types already
      declared leaves the verdict unchanged. */
  lemma RepeatedTypesKeepVerdict(path: string, root: Node, extra: Node, registry: set<string>)
    requires GrandchildrenTyped(root.children, root.ns)
    requires DeclarationsTyped(extra.children, root.ns)
    requires forall j :: 0 <= j < |extra.children| && IsObject(extra.children[j], root.ns) ==>
      extra.children[j].attrs[ObjectTypeAttr] in ObjectTypes(root)
    ensures GrandchildrenTyped((root.children + [extra]), root.ns)
    ensures IsOurQsfObject(Some(path), Some(root.(children := root.children + [extra])), true, registry) ==
            IsOurQsfObject(Some(path), Some(root), true, registry)
  {
    var root' := root.(children := root.children + [extra]);
    assert GrandchildrenTyped(root'.children, root.ns) by {
      forall i | 0 <= i < |root'.children| ensures DeclarationsTyped(root'.children[i].children, root.ns) {
        if i < |root.children| {
          assert root'.children[i] == root.children[i];
        }
      }
    }
    assert ObjectTypes(root') == ObjectTypes(root) by {
      forall x | x in ObjectTypes(root') ensures x in ObjectTypes(root) {
        var i :| 0 <= i < |root'.children| && x in DeclaredTypes(root'.children[i].children, root.ns);
        if i < |root.children| {
          assert root'.children[i] == root.children[i];
        } else {
          assert root'.children[i] == extra;
        }
      }
      forall x | x in ObjectTypes(root) ensures x in ObjectTypes(root') {
        var i :| 0 <= i < |root.children| && x in DeclaredTypes(root.children[i].children, root.ns);
        assert root'.children[i] == root.children[i];
      }
    }
  }
}
