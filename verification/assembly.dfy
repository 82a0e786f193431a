/** Model assembly: the book, object and parameter handlers that turn a
    validated QSF object document into object sets (a type name plus a map
    from parameter type to parameter node) and the book's GUID. */
module Assembly {
  import opened XmlTree
  import opened Validation

  const ObjectCountAttr: string := "count"
  const BookTag: string := "book"
  const BookGuidTag: string := "book-guid"
  const BookCountAttr: string := "count"

  /** A GUID is a 128-bit value. */
  type Guid = x: nat | x < 0x1_0000_0000_0000_0000_0000_0000_0000_0000

  /** One `<object>` declaration: its `type` attribute (absent when the
      attribute is) and the parameter nodes keyed by their `type`. */
  datatype ObjectSet = ObjectSet(objectType: Option<string>, parameters: map<string, Node>)

  /** What the handlers accumulate: the object list (newest first) and the
      GUID given to the book. */
  datatype LoadState = LoadState(objects: seq<ObjectSet>, bookGuid: Option<Guid>)

  // ---------------------------------------------------------------------
  // Parameters

  /** A child the parameter handler records: an element of the iteration's
      namespace whose tag is one of the supported type names. */
  predicate IsParameter(c: Node, ns: Option<Namespace>, supported: seq<string>)
  {
    c.name in supported && IsElement(Some(c), ns, Some(c.name))
  }

  /** A recorded child carries the `type` attribute that keys it (the
      schema requires it; the hash table cannot take a null key). */
  predicate ParameterTyped(c: Node, ns: Option<Namespace>, supported: seq<string>)
  {
    IsParameter(c, ns, supported) ==> ObjectTypeAttr in c.attrs
  }

  predicate ParametersTyped(cs: seq<Node>, ns: Option<Namespace>, supported: seq<string>)
  {
    forall i :: 0 <= i < |cs| ==> ParameterTyped(cs[i], ns, supported)
  }

  /** Child `c` is a parameter recorded under key `k`. */
  predicate Supplies(c: Node, ns: Option<Namespace>, supported: seq<string>, k: string)
  {
    IsParameter(c, ns, supported) && ObjectTypeAttr in c.attrs && c.attrs[ObjectTypeAttr] == k
  }

  /** Some child among `cs` is recorded under `k`. */
  predicate Supplied(cs: seq<Node>, ns: Option<Namespace>, supported: seq<string>, k: string)
  {
    exists i :: 0 <= i < |cs| && Supplies(cs[i], ns, supported, k)
  }

  /** Child `i` is the last of `cs` recorded under `k`. */
  predicate LastSupplier(cs: seq<Node>, i: int, ns: Option<Namespace>, supported: seq<string>, k: string)
  {
    && 0 <= i < |cs|
    && Supplies(cs[i], ns, supported, k)
    && forall j :: i < j < |cs| ==> !Supplies(cs[j], ns, supported, k)
  }

  /** `qsf_supported_data_types` applied to one child for every name of the
      supported list in turn: the child is recorded under its `type` exactly
      when its tag is one of the names, whatever their order or repetition,
      replacing what the key held before; any other child changes nothing. */
  function SupportedDataTypes(c: Node, ns: Option<Namespace>, types: seq<string>, m: map<string, Node>): (r: map<string, Node>)
    requires ParameterTyped(c, ns, types)
    ensures IsParameter(c, ns, types) ==> r == m[c.attrs[ObjectTypeAttr] := c]
    ensures !IsParameter(c, ns, types) ==> r == m
    decreases |types|
  {
    if |types| == 0 then m
    else
      var m' := if IsElement(Some(c), ns, Some(types[0])) then m[c.attrs[ObjectTypeAttr] := c] else m;
      SupportedDataTypes(c, ns, types[1..], m')
  }

  /** `qsf_parameter_handler`, the callback handed to the traversal of an
      object's children. */
  function ParameterCallback(supported: seq<string>): (Node, Option<Namespace>, map<string, Node>) --> map<string, Node>
  {
    (c: Node, ns: Option<Namespace>, m: map<string, Node>) requires ParameterTyped(c, ns, supported) =>
      SupportedDataTypes(c, ns, supported, m)
  }

  lemma ParametersTypedInit(cs: seq<Node>, ns: Option<Namespace>, supported: seq<string>)
    requires |cs| > 0 && ParametersTyped(cs, ns, supported)
    ensures ParametersTyped(cs[..|cs| - 1], ns, supported)
    ensures ParameterTyped(cs[|cs| - 1], ns, supported)
    ensures Accepts(ParameterCallback(supported), cs, ns)
  {
    assert forall i :: 0 <= i < |cs| - 1 ==> cs[..|cs| - 1][i] == cs[i];
  }

  /** One more child: the step the traversal takes at the end. */
  lemma ParameterStep(cs: seq<Node>, ns: Option<Namespace>, supported: seq<string>, m: map<string, Node>)
    requires |cs| > 0 && ParametersTyped(cs, ns, supported)
    ensures ParametersTyped(cs[..|cs| - 1], ns, supported)
    ensures Accepts(ParameterCallback(supported), cs, ns)
    ensures Accepts(ParameterCallback(supported), cs[..|cs| - 1], ns)
    ensures ParameterTyped(cs[|cs| - 1], ns, supported)
    ensures Foreach(cs, ns, ParameterCallback(supported), m) ==
            SupportedDataTypes(cs[|cs| - 1], ns, supported, Foreach(cs[..|cs| - 1], ns, ParameterCallback(supported), m))
  {
    ParametersTypedInit(cs, ns, supported);
    var init := cs[..|cs| - 1];
    assert cs == init + [cs[|cs| - 1]];
    ForeachSnoc(init, cs[|cs| - 1], ns, ParameterCallback(supported), m);
  }

  /** Over a run of children the parameter map gains exactly the keys some
      child supplies. */
  lemma {:induction false} ParameterKeys(cs: seq<Node>, ns: Option<Namespace>, supported: seq<string>, m: map<string, Node>)
    requires ParametersTyped(cs, ns, supported)
    ensures Accepts(ParameterCallback(supported), cs, ns)
    ensures forall k :: k in Foreach(cs, ns, ParameterCallback(supported), m) <==> k in m || Supplied(cs, ns, supported, k)
    decreases |cs|
  {
    if |cs| == 0 {
    } else {
      ParameterStep(cs, ns, supported, m);
      var init := cs[..|cs| - 1];
      var last := cs[|cs| - 1];
      ParameterKeys(init, ns, supported, m);
      var r0 := Foreach(init, ns, ParameterCallback(supported), m);
      forall k ensures k in SupportedDataTypes(last, ns, supported, r0) <==> k in m || Supplied(cs, ns, supported, k) {
        if Supplied(init, ns, supported, k) {
          var i :| 0 <= i < |init| && Supplies(init[i], ns, supported, k);
          assert cs[i] == init[i];
        }
        if Supplied(cs, ns, supported, k) {
          var i :| 0 <= i < |cs| && Supplies(cs[i], ns, supported, k);
          if i < |init| {
            assert cs[i] == init[i];
          }
        }
      }
    }
  }

  /** Each supplied key ends up holding the LAST child that supplies it. */
  lemma {:induction false} ParameterLastWins(cs: seq<Node>, ns: Option<Namespace>, supported: seq<string>, m: map<string, Node>)
    requires ParametersTyped(cs, ns, supported)
    ensures Accepts(ParameterCallback(supported), cs, ns)
    ensures var r := Foreach(cs, ns, ParameterCallback(supported), m);
      forall k, i | LastSupplier(cs, i, ns, supported, k) :: k in r && r[k] == cs[i]
    decreases |cs|
  {
    if |cs| > 0 {
      ParameterStep(cs, ns, supported, m);
      var init := cs[..|cs| - 1];
      var last := cs[|cs| - 1];
      ParameterLastWins(init, ns, supported, m);
      var r0 := Foreach(init, ns, ParameterCallback(supported), m);
      var r := SupportedDataTypes(last, ns, supported, r0);
      forall k, i | LastSupplier(cs, i, ns, supported, k) ensures k in r && r[k] == cs[i] {
        if i < |init| {
          assert !Supplies(cs[|cs| - 1], ns, supported, k);
          assert LastSupplier(init, i, ns, supported, k) by {
            forall j | i < j < |init| ensures !Supplies(init[j], ns, supported, k) {
              assert init[j] == cs[j];
            }
          }
        }
      }
    }
  }

  /** The parameter map of one object: keyed by the `type` of each
      supported-type child, holding the last such child for each key. */
  function ObjectParameters(obj: Node, ns: Option<Namespace>, supported: seq<string>): (r: map<string, Node>)
    requires ParametersTyped(obj.children, ns, supported)
    ensures forall k :: k in r <==> Supplied(obj.children, ns, supported, k)
    ensures forall k, i | LastSupplier(obj.children, i, ns, supported, k) :: k in r && r[k] == obj.children[i]
  {
    ParameterKeys(obj.children, ns, supported, map[]);
    ParameterLastWins(obj.children, ns, supported, map[]);
    Foreach(obj.children, ns, ParameterCallback(supported), map[])
  }

  // ---------------------------------------------------------------------
  // Objects

  /** What the object handler needs of an object element: the `count`
      attribute it parses, and typed parameters. */
  predicate ObjectDeclared(c: Node, ns: Option<Namespace>, supported: seq<string>)
  {
    IsObject(c, ns) ==> ObjectCountAttr in c.attrs && ParametersTyped(c.children, ns, supported)
  }

  predicate ObjectsDeclared(cs: seq<Node>, ns: Option<Namespace>, supported: seq<string>)
  {
    forall i :: 0 <= i < |cs| ==> ObjectDeclared(cs[i], ns, supported)
  }

  lemma ObjectsDeclaredTail(cs: seq<Node>, ns: Option<Namespace>, supported: seq<string>)
    requires |cs| > 0 && ObjectsDeclared(cs, ns, supported)
    ensures ObjectsDeclared(cs[1..], ns, supported)
  {
    forall i | 0 <= i < |cs[1..]| ensures ObjectDeclared(cs[1..][i], ns, supported) {
      assert cs[1..][i] == cs[i + 1];
    }
  }

  /** The object set built for one object element. */
  function MakeObjectSet(c: Node, ns: Option<Namespace>, supported: seq<string>): ObjectSet
    requires ObjectDeclared(c, ns, supported)
    requires IsObject(c, ns)
  {
    ObjectSet(GetProp(c, ObjectTypeAttr), ObjectParameters(c, ns, supported))
  }

  /** `qsf_object_node_handler`: a node that is not an `<object>` of the
      namespace leaves the state alone; an `<object>` puts exactly one new
      set at the FRONT of the list (no deduplication by type), holding the
      element's `type` and its own parameter map. The `count` attribute is
      parsed and thrown away. */
  function ObjectNodeHandler(c: Node, ns: Option<Namespace>, supported: seq<string>, st: LoadState): (r: LoadState)
    requires ObjectDeclared(c, ns, supported)
    ensures r.bookGuid == st.bookGuid
    ensures !IsObject(c, ns) ==> r == st
    ensures IsObject(c, ns) ==>
      && |r.objects| == |st.objects| + 1
      && r.objects[1..] == st.objects
      && r.objects[0].objectType == GetProp(c, ObjectTypeAttr)
      && r.objects[0].parameters == ObjectParameters(c, ns, supported)
  {
    if ns.None? then st
    else if IsObject(c, ns) then
      var objectSet := ObjectSet(GetProp(c, ObjectTypeAttr), ObjectParameters(c, ns, supported));
      st.(objects := [objectSet] + st.objects)
    else st
  }

  function ObjectCallback(supported: seq<string>): (Node, Option<Namespace>, LoadState) --> LoadState
  {
    (c: Node, ns: Option<Namespace>, st: LoadState) requires ObjectDeclared(c, ns, supported) =>
      ObjectNodeHandler(c, ns, supported, st)
  }

  /** The object sets of the `<object>` elements among `cs`, in document
      order: one per element, none for anything else. */
  function ObjectSets(cs: seq<Node>, ns: Option<Namespace>, supported: seq<string>): (r: seq<ObjectSet>)
    requires ObjectsDeclared(cs, ns, supported)
    ensures |r| <= |cs|
    decreases |cs|
  {
    if |cs| == 0 then []
    else
      ObjectsDeclaredTail(cs, ns, supported);
      if IsObject(cs[0], ns) then [MakeObjectSet(cs[0], ns, supported)] + ObjectSets(cs[1..], ns, supported)
      else ObjectSets(cs[1..], ns, supported)
  }

  lemma ObjectSetsUncons(cs: seq<Node>, ns: Option<Namespace>, supported: seq<string>)
    requires |cs| > 0 && ObjectsDeclared(cs, ns, supported)
    ensures ObjectsDeclared(cs[1..], ns, supported)
    ensures ObjectSets(cs, ns, supported) ==
      (if IsObject(cs[0], ns) then [MakeObjectSet(cs[0], ns, supported)] else []) + ObjectSets(cs[1..], ns, supported)
  {
    ObjectsDeclaredTail(cs, ns, supported);
  }

  /** `o` is the set built for one of the `<object>` elements among `cs`. */
  predicate BuiltFrom(o: ObjectSet, cs: seq<Node>, ns: Option<Namespace>, supported: seq<string>)
  {
    exists i :: 0 <= i < |cs| && IsObject(cs[i], ns) && ObjectDeclared(cs[i], ns, supported) &&
      o == MakeObjectSet(cs[i], ns, supported)
  }

  /** Every `<object>` element among `cs` has its set in the list, and the
      list holds nothing else. */
  lemma {:induction false} ObjectSetsMembers(cs: seq<Node>, ns: Option<Namespace>, supported: seq<string>)
    requires ObjectsDeclared(cs, ns, supported)
    ensures forall i :: 0 <= i < |cs| && IsObject(cs[i], ns) ==> MakeObjectSet(cs[i], ns, supported) in ObjectSets(cs, ns, supported)
    ensures forall o :: o in ObjectSets(cs, ns, supported) ==> BuiltFrom(o, cs, ns, supported)
    decreases |cs|
  {
    if |cs| > 0 {
      ObjectsDeclaredTail(cs, ns, supported);
      ObjectSetsMembers(cs[1..], ns, supported);
      var rest := ObjectSets(cs[1..], ns, supported);
      forall i | 0 <= i < |cs| && IsObject(cs[i], ns)
        ensures MakeObjectSet(cs[i], ns, supported) in ObjectSets(cs, ns, supported)
      {
        if i > 0 {
          assert cs[1..][i - 1] == cs[i];
        }
      }
      forall o | o in ObjectSets(cs, ns, supported) ensures BuiltFrom(o, cs, ns, supported) {
        if o in rest {
          var j :| 0 <= j < |cs[1..]| && IsObject(cs[1..][j], ns) && ObjectDeclared(cs[1..][j], ns, supported) &&
            o == MakeObjectSet(cs[1..][j], ns, supported);
          assert cs[j + 1] == cs[1..][j];
        }
      }
    }
  }

  function Reverse<T>(s: seq<T>): (r: seq<T>)
    ensures |r| == |s|
  {
    if |s| == 0 then [] else Reverse(s[1..]) + [s[0]]
  }

  lemma {:induction false} ReverseAppend<T>(a: seq<T>, b: seq<T>)
    ensures Reverse(a + b) == Reverse(b) + Reverse(a)
    decreases |a|
  {
    if |a| == 0 {
      assert a + b == b;
    } else {
      assert (a + b)[1..] == a[1..] + b;
      assert (a + b)[0] == a[0];
      ReverseAppend(a[1..], b);
    }
  }

  /** Prepending two groups newest first is prepending their concatenation newest first. */
  lemma ReversePrepend<T>(head: seq<T>, tail: seq<T>, rest: seq<T>)
    ensures Reverse(tail) + (Reverse(head) + rest) == Reverse(head + tail) + rest
  {
    ReverseAppend(head, tail);
    assert Reverse(tail) + (Reverse(head) + rest) == (Reverse(tail) + Reverse(head)) + rest;
  }

  lemma {:induction false} ReverseMembers<T>(s: seq<T>)
    ensures forall x :: x in Reverse(s) <==> x in s
    decreases |s|
  {
    if |s| > 0 {
      ReverseMembers(s[1..]);
      assert s == [s[0]] + s[1..];
    }
  }

  lemma ObjectCallbackAccepts(cs: seq<Node>, ns: Option<Namespace>, supported: seq<string>)
    requires ObjectsDeclared(cs, ns, supported)
    ensures Accepts(ObjectCallback(supported), cs, ns)
  {
  }

  /** The first child through the object handler. */
  lemma ObjectTraversalStep(cs: seq<Node>, ns: Option<Namespace>, supported: seq<string>, st: LoadState)
    requires |cs| > 0 && ObjectsDeclared(cs, ns, supported)
    ensures ObjectsDeclared(cs[1..], ns, supported)
    ensures Accepts(ObjectCallback(supported), cs, ns)
    ensures Accepts(ObjectCallback(supported), cs[1..], ns)
    ensures Foreach(cs, ns, ObjectCallback(supported), st) ==
            Foreach(cs[1..], ns, ObjectCallback(supported), ObjectNodeHandler(cs[0], ns, supported, st))
  {
    ObjectCallbackAccepts(cs, ns, supported);
    ForeachUncons(cs, ns, ObjectCallback(supported), st);
    ObjectsDeclaredTail(cs, ns, supported);
  }

  /** The first child's contribution to the reversed list of sets. */
  lemma ObjectSetsStep(cs: seq<Node>, ns: Option<Namespace>, supported: seq<string>, st: LoadState)
    requires |cs| > 0 && ObjectsDeclared(cs, ns, supported)
    ensures ObjectsDeclared(cs[1..], ns, supported)
    ensures Reverse(ObjectSets(cs, ns, supported)) + st.objects ==
            Reverse(ObjectSets(cs[1..], ns, supported)) + ObjectNodeHandler(cs[0], ns, supported, st).objects
  {
    ObjectSetsUncons(cs, ns, supported);
    var rest := ObjectSets(cs[1..], ns, supported);
    if IsObject(cs[0], ns) {
      var o := MakeObjectSet(cs[0], ns, supported);
      assert ObjectSets(cs, ns, supported) == [o] + rest;
      assert Reverse([o]) == [o];
      assert ObjectNodeHandler(cs[0], ns, supported, st).objects == Reverse([o]) + st.objects;
      ReversePrepend([o], rest, st.objects);
    } else {
      assert ObjectSets(cs, ns, supported) == rest;
    }
  }

  /** Traversing children with the object handler puts their object sets in
      front of the list in REVERSE document order, and changes nothing else. */
  lemma {:induction false} ObjectsPrepended(cs: seq<Node>, ns: Option<Namespace>, supported: seq<string>, st: LoadState)
    requires ObjectsDeclared(cs, ns, supported)
    ensures Accepts(ObjectCallback(supported), cs, ns)
    ensures Foreach(cs, ns, ObjectCallback(supported), st) ==
            st.(objects := Reverse(ObjectSets(cs, ns, supported)) + st.objects)
    decreases |cs|
  {
    ObjectCallbackAccepts(cs, ns, supported);
    if |cs| > 0 {
      ObjectTraversalStep(cs, ns, supported, st);
      ObjectSetsStep(cs, ns, supported, st);
      ObjectsPrepended(cs[1..], ns, supported, ObjectNodeHandler(cs[0], ns, supported, st));
    }
  }

  /** A second `<object>` adds a second set even when its type repeats an
      earlier one: the list grows by one per object element. */
  lemma RepeatedObjectsKept(cs: seq<Node>, o: Node, ns: Option<Namespace>, supported: seq<string>, st: LoadState)
    requires ObjectsDeclared(cs + [o], ns, supported)
    requires IsObject(o, ns)
    ensures ObjectsDeclared(cs, ns, supported)
    ensures |Foreach(cs + [o], ns, ObjectCallback(supported), st).objects| ==
            |Foreach(cs, ns, ObjectCallback(supported), st).objects| + 1
  {
    var cb := ObjectCallback(supported);
    assert forall i :: 0 <= i < |cs| ==> (cs + [o])[i] == cs[i];
    assert (cs + [o])[|cs|] == o;
    ForeachSnoc(cs, o, ns, cb, st);
    var before := Foreach(cs, ns, cb, st);
    assert cb(o, ns, before) == ObjectNodeHandler(o, ns, supported, before);
  }

  // ---------------------------------------------------------------------
  // Book

  predicate IsBook(c: Node, ns: Option<Namespace>)
  {
    IsElement(Some(c), ns, Some(BookTag))
  }

  predicate IsBookGuid(c: Node, ns: Option<Namespace>)
  {
    IsElement(Some(c), ns, Some(BookGuidTag))
  }

  /** The `(int)` conversion of the `long` that `strtol` returns: the value
      modulo 2^32, read as a two's-complement 32-bit integer. */
  function ToCInt(v: int): (r: int)
    ensures -0x8000_0000 <= r < 0x8000_0000
    ensures (v - r) % 0x1_0000_0000 == 0
    ensures -0x8000_0000 <= v < 0x8000_0000 ==> r == v
  {
    (v + 0x8000_0000) % 0x1_0000_0000 - 0x8000_0000
  }

  /** The book count check: an absent `count` is not checked; a present
      one must convert to 1. `strtol` stands for the C library's parse. */
  predicate BookCountAccepted(c: Node, strtol: string -> int)
  {
    BookCountAttr !in c.attrs || ToCInt(strtol(c.attrs[BookCountAttr])) == 1
  }

  /** The children of each `<object>` among `cs` can go through the object handler. */
  predicate NestedDeclared(cs: seq<Node>, ns: Option<Namespace>, supported: seq<string>)
  {
    forall i :: 0 <= i < |cs| && IsObject(cs[i], ns) ==> ObjectsDeclared(cs[i].children, ns, supported)
  }

  lemma NestedDeclaredTail(cs: seq<Node>, ns: Option<Namespace>, supported: seq<string>)
    requires |cs| > 0 && NestedDeclared(cs, ns, supported)
    ensures NestedDeclared(cs[1..], ns, supported)
  {
    forall i | 0 <= i < |cs[1..]| && IsObject(cs[1..][i], ns) ensures ObjectsDeclared(cs[1..][i].children, ns, supported) {
      assert cs[1..][i] == cs[i + 1];
    }
  }

  /** A `<book-guid>` whose text is not a GUID. */
  predicate GuidFails(n: Node, ns: Option<Namespace>, parseGuid: string -> Option<Guid>)
  {
    IsBookGuid(n, ns) && parseGuid(n.content).None?
  }

  predicate HasBadGuid(cs: seq<Node>, ns: Option<Namespace>, parseGuid: string -> Option<Guid>)
  {
    exists i :: 0 <= i < |cs| && GuidFails(cs[i], ns, parseGuid)
  }

  /** What the loop of `qsf_book_node_handler` needs of the children it
      reaches: those before the first malformed `<book-guid>`. The children of
      each `<object>` among them can go through the object handler; what
      follows a malformed `<book-guid>` is never looked at. */
  predicate LoopDeclared(cs: seq<Node>, ns: Option<Namespace>, supported: seq<string>,
                         parseGuid: string -> Option<Guid>)
    decreases |cs|
  {
    || |cs| == 0
    || GuidFails(cs[0], ns, parseGuid)
    || ((IsObject(cs[0], ns) ==> ObjectsDeclared(cs[0].children, ns, supported))
        && LoopDeclared(cs[1..], ns, supported, parseGuid))
  }

  /** Without a malformed `<book-guid>` the loop reaches every child. */
  lemma {:induction false} LoopDeclaredIsNested(cs: seq<Node>, ns: Option<Namespace>, supported: seq<string>,
                                                parseGuid: string -> Option<Guid>)
    requires !HasBadGuid(cs, ns, parseGuid)
    ensures LoopDeclared(cs, ns, supported, parseGuid) <==> NestedDeclared(cs, ns, supported)
    decreases |cs|
  {
    if |cs| > 0 {
      NoBadGuidTail(cs, ns, parseGuid);
      LoopDeclaredIsNested(cs[1..], ns, supported, parseGuid);
      if NestedDeclared(cs, ns, supported) {
        NestedDeclaredTail(cs, ns, supported);
      }
      if LoopDeclared(cs, ns, supported, parseGuid) {
        forall i | 0 <= i < |cs| && IsObject(cs[i], ns) ensures ObjectsDeclared(cs[i].children, ns, supported) {
          if i > 0 {
            assert cs[1..][i - 1] == cs[i];
          }
        }
      }
    }
  }

  /** Child `i` is the last `<book-guid>` among `cs`. */
  predicate LastGuid(cs: seq<Node>, i: int, ns: Option<Namespace>)
  {
    && 0 <= i < |cs|
    && IsBookGuid(cs[i], ns)
    && forall j :: i < j < |cs| ==> !IsBookGuid(cs[j], ns)
  }

  /** `r` holds everything `st` did, with new sets only in front. */
  predicate Extends(r: LoadState, st: LoadState)
  {
    |st.objects| <= |r.objects| && r.objects[|r.objects| - |st.objects|..] == st.objects
  }

  lemma ExtendsTransitive(a: LoadState, b: LoadState, c: LoadState)
    requires Extends(a, b) && Extends(b, c)
    ensures Extends(a, c)
  {
    assert a.objects[|a.objects| - |c.objects|..] == b.objects[|b.objects| - |c.objects|..];
  }

  /** One pass of the loop over a child that is not a malformed
      `<book-guid>` (the loop returns on one of those before any step): a
      `<book-guid>` sets the GUID to the one its text holds; an `<object>` has
      its own children handled, which prepends their sets newest first. */
  function BookLoopStep(n: Node, ns: Option<Namespace>, supported: seq<string>,
                        parseGuid: string -> Option<Guid>, st: LoadState): (r: LoadState)
    requires !GuidFails(n, ns, parseGuid)
    requires IsObject(n, ns) ==> ObjectsDeclared(n.children, ns, supported)
    ensures IsBookGuid(n, ns) ==> r.bookGuid.Some? && r.bookGuid == parseGuid(n.content)
    ensures !IsBookGuid(n, ns) ==> r.bookGuid == st.bookGuid
    ensures r.objects ==
      (if IsObject(n, ns) then Reverse(ObjectSets(n.children, ns, supported)) else []) + st.objects
  {
    var st1 := if IsBookGuid(n, ns) then st.(bookGuid := parseGuid(n.content)) else st;
    if IsObject(n, ns) then
      ObjectsPrepended(n.children, ns, supported, st1);
      Foreach(n.children, ns, ObjectCallback(supported), st1)
    else st1
  }

  /** The loop at the end of `qsf_book_node_handler` over a node's
      children. A `<book-guid>` whose text is not a GUID ends the whole
      handler at once; every other child takes one step. */
  function BookLoop(cs: seq<Node>, ns: Option<Namespace>, supported: seq<string>,
                    parseGuid: string -> Option<Guid>, st: LoadState): (r: LoadState)
    requires LoopDeclared(cs, ns, supported, parseGuid)
    ensures Extends(r, st)
    decreases |cs|
  {
    if |cs| == 0 then st
    else if GuidFails(cs[0], ns, parseGuid) then st
    else
      var st1 := BookLoopStep(cs[0], ns, supported, parseGuid, st);
      var r := BookLoop(cs[1..], ns, supported, parseGuid, st1);
      assert Extends(st1, st);
      ExtendsTransitive(r, st1, st);
      r
  }

  /** A `<book-guid>` that does not parse ends the loop: nothing from it or
      from any later child has an effect. */
  lemma {:induction false} BadGuidStopsScan(cs: seq<Node>, i: nat, ns: Option<Namespace>, supported: seq<string>,
                                            parseGuid: string -> Option<Guid>, st: LoadState)
    requires LoopDeclared(cs, ns, supported, parseGuid)
    requires i < |cs| && GuidFails(cs[i], ns, parseGuid)
    ensures LoopDeclared(cs[..i], ns, supported, parseGuid)
    ensures BookLoop(cs, ns, supported, parseGuid, st) == BookLoop(cs[..i], ns, supported, parseGuid, st)
    decreases i
  {
    assert forall j :: 0 <= j < i ==> cs[..i][j] == cs[j];
    if i > 0 && !GuidFails(cs[0], ns, parseGuid) {
      var st1 := BookLoopStep(cs[0], ns, supported, parseGuid, st);
      assert cs[1..][i - 1] == cs[i];
      BadGuidStopsScan(cs[1..], i - 1, ns, supported, parseGuid, st1);
      assert cs[..i][1..] == cs[1..][..i - 1];
    }
  }

  /** The object sets for the `<object>` elements nested one level inside
      the `<object>` elements among `cs`, in document order. */
  function NestedObjectSets(cs: seq<Node>, ns: Option<Namespace>, supported: seq<string>): seq<ObjectSet>
    requires NestedDeclared(cs, ns, supported)
    decreases |cs|
  {
    if |cs| == 0 then []
    else
      NestedDeclaredTail(cs, ns, supported);
      (if IsObject(cs[0], ns) then ObjectSets(cs[0].children, ns, supported) else [])
        + NestedObjectSets(cs[1..], ns, supported)
  }

  lemma NoBadGuidTail(cs: seq<Node>, ns: Option<Namespace>, parseGuid: string -> Option<Guid>)
    requires |cs| > 0 && !HasBadGuid(cs, ns, parseGuid)
    ensures !GuidFails(cs[0], ns, parseGuid)
    ensures !HasBadGuid(cs[1..], ns, parseGuid)
  {
    assert forall j :: 0 <= j < |cs[1..]| ==> cs[1..][j] == cs[j + 1];
  }

  /** The first child of a run without a malformed GUID: one step, then the rest. */
  lemma BookLoopUncons(cs: seq<Node>, ns: Option<Namespace>, supported: seq<string>,
                       parseGuid: string -> Option<Guid>, st: LoadState)
    requires |cs| > 0 && LoopDeclared(cs, ns, supported, parseGuid)
    requires !HasBadGuid(cs, ns, parseGuid)
    ensures !GuidFails(cs[0], ns, parseGuid)
    ensures IsObject(cs[0], ns) ==> ObjectsDeclared(cs[0].children, ns, supported)
    ensures LoopDeclared(cs[1..], ns, supported, parseGuid)
    ensures !HasBadGuid(cs[1..], ns, parseGuid)
    ensures BookLoop(cs, ns, supported, parseGuid, st) ==
            BookLoop(cs[1..], ns, supported, parseGuid, BookLoopStep(cs[0], ns, supported, parseGuid, st))
  {
    NoBadGuidTail(cs, ns, parseGuid);
  }

  /** The first child's nested sets, then the rest's. */
  lemma NestedObjectSetsUncons(cs: seq<Node>, ns: Option<Namespace>, supported: seq<string>)
    requires |cs| > 0 && NestedDeclared(cs, ns, supported)
    ensures NestedDeclared(cs[1..], ns, supported)
    ensures IsObject(cs[0], ns) ==> ObjectsDeclared(cs[0].children, ns, supported)
    ensures NestedObjectSets(cs, ns, supported) ==
      (if IsObject(cs[0], ns) then ObjectSets(cs[0].children, ns, supported) else [])
        + NestedObjectSets(cs[1..], ns, supported)
  {
    NestedDeclaredTail(cs, ns, supported);
  }

  /** Without a malformed GUID the loop prepends the nested object sets,
      newest first. */
  lemma {:induction false} BookLoopObjects(cs: seq<Node>, ns: Option<Namespace>, supported: seq<string>,
                                           parseGuid: string -> Option<Guid>, st: LoadState)
    requires LoopDeclared(cs, ns, supported, parseGuid)
    requires !HasBadGuid(cs, ns, parseGuid)
    ensures NestedDeclared(cs, ns, supported)
    ensures BookLoop(cs, ns, supported, parseGuid, st).objects ==
            Reverse(NestedObjectSets(cs, ns, supported)) + st.objects
    decreases |cs|
  {
    LoopDeclaredIsNested(cs, ns, supported, parseGuid);
    if |cs| > 0 {
      BookLoopUncons(cs, ns, supported, parseGuid, st);
      NestedObjectSetsUncons(cs, ns, supported);
      var st1 := BookLoopStep(cs[0], ns, supported, parseGuid, st);
      BookLoopObjects(cs[1..], ns, supported, parseGuid, st1);
      var tail := NestedObjectSets(cs[1..], ns, supported);
      if IsObject(cs[0], ns) {
        var head := ObjectSets(cs[0].children, ns, supported);
        assert st1.objects == Reverse(head) + st.objects;
        assert NestedObjectSets(cs, ns, supported) == head + tail;
        ReversePrepend(head, tail, st.objects);
      } else {
        assert st1.objects == st.objects;
        assert NestedObjectSets(cs, ns, supported) == tail;
      }
    }
  }

  /** Without a malformed GUID the book ends up with the GUID of the last
      `<book-guid>`, or keeps its old one when there is none. */
  lemma {:induction false} BookLoopGuid(cs: seq<Node>, ns: Option<Namespace>, supported: seq<string>,
                                        parseGuid: string -> Option<Guid>, st: LoadState)
    requires LoopDeclared(cs, ns, supported, parseGuid)
    requires !HasBadGuid(cs, ns, parseGuid)
    ensures forall i | LastGuid(cs, i, ns) ::
      BookLoop(cs, ns, supported, parseGuid, st).bookGuid == parseGuid(cs[i].content)
    ensures (forall i :: 0 <= i < |cs| ==> !IsBookGuid(cs[i], ns)) ==>
      BookLoop(cs, ns, supported, parseGuid, st).bookGuid == st.bookGuid
    decreases |cs|
  {
    if |cs| > 0 {
      BookLoopUncons(cs, ns, supported, parseGuid, st);
      NoBadGuidTail(cs, ns, parseGuid);
      var st1 := BookLoopStep(cs[0], ns, supported, parseGuid, st);
      BookLoopGuid(cs[1..], ns, supported, parseGuid, st1);
      var r := BookLoop(cs, ns, supported, parseGuid, st);
      assert r == BookLoop(cs[1..], ns, supported, parseGuid, st1);
      forall i | LastGuid(cs, i, ns) ensures r.bookGuid == parseGuid(cs[i].content) {
        if i > 0 {
          assert LastGuid(cs[1..], i - 1, ns) by {
            forall j | i - 1 < j < |cs[1..]| ensures !IsBookGuid(cs[1..][j], ns) {
              assert cs[1..][j] == cs[j + 1];
            }
          }
        } else {
          assert forall j :: 0 <= j < |cs[1..]| ==> !IsBookGuid(cs[1..][j], ns) by {
            forall j | 0 <= j < |cs[1..]| ensures !IsBookGuid(cs[1..][j], ns) {
              assert cs[1..][j] == cs[j + 1];
            }
          }
        }
      }
      if forall i :: 0 <= i < |cs| ==> !IsBookGuid(cs[i], ns) {
        assert !IsBookGuid(cs[0], ns);
        assert forall j :: 0 <= j < |cs[1..]| ==> !IsBookGuid(cs[1..][j], ns) by {
          forall j | 0 <= j < |cs[1..]| ensures !IsBookGuid(cs[1..][j], ns) {
            assert cs[1..][j] == cs[j + 1];
          }
        }
      }
    }
  }

  /** What `qsf_book_node_handler` needs of a node once the count check
      has passed: every object directly under a book goes through the object
      handler, and so do the children of the objects the loop reaches. */
  predicate BookDeclared(c: Node, ns: Option<Namespace>, supported: seq<string>, parseGuid: string -> Option<Guid>)
  {
    && (IsBook(c, ns) ==> ObjectsDeclared(c.children, ns, supported))
    && LoopDeclared(c.children, ns, supported, parseGuid)
  }

  /** `qsf_book_node_handler`. For a `<book>` whose `count` is present and
      not 1 nothing happens at all. Otherwise a book's direct `<object>`
      children are handled first; then, for ANY node (book or not), its
      children are scanned for `<book-guid>` and for `<object>` elements
      whose own children are handled. The handler only ever adds sets in
      front of the list. */
  function BookNodeHandler(c: Node, ns: Option<Namespace>, supported: seq<string>, strtol: string -> int,
                           parseGuid: string -> Option<Guid>, st: LoadState): (r: LoadState)
    requires (IsBook(c, ns) && !BookCountAccepted(c, strtol)) || BookDeclared(c, ns, supported, parseGuid)
    ensures IsBook(c, ns) && !BookCountAccepted(c, strtol) ==> r == st
    ensures Extends(r, st)
  {
    if IsBook(c, ns) && BookCountAttr in c.attrs && ToCInt(strtol(c.attrs[BookCountAttr])) != 1 then st
    else
      var st1 := if IsBook(c, ns) then (
          ObjectsPrepended(c.children, ns, supported, st);
          Foreach(c.children, ns, ObjectCallback(supported), st))
        else st;
      var r := BookLoop(c.children, ns, supported, parseGuid, st1);
      assert Extends(st1, st);
      ExtendsTransitive(r, st1, st);
      r
  }

  /** A book that passes the count check yields one object set for every
      `<object>` directly under it, even when a malformed GUID follows. */
  lemma DirectObjectsYieldSets(c: Node, ns: Option<Namespace>, supported: seq<string>, strtol: string -> int,
                               parseGuid: string -> Option<Guid>, st: LoadState, i: nat)
    requires BookDeclared(c, ns, supported, parseGuid)
    requires IsBook(c, ns) && BookCountAccepted(c, strtol)
    requires i < |c.children| && IsObject(c.children[i], ns)
    ensures ObjectDeclared(c.children[i], ns, supported)
    ensures MakeObjectSet(c.children[i], ns, supported) in
            BookNodeHandler(c, ns, supported, strtol, parseGuid, st).objects
  {
    ObjectsPrepended(c.children, ns, supported, st);
    ObjectSetsMembers(c.children, ns, supported);
    var sets := ObjectSets(c.children, ns, supported);
    ReverseMembers(sets);
    var st1 := Foreach(c.children, ns, ObjectCallback(supported), st);
    var o := MakeObjectSet(c.children[i], ns, supported);
    assert o in st1.objects;
    var r := BookNodeHandler(c, ns, supported, strtol, parseGuid, st);
    assert r == BookLoop(c.children, ns, supported, parseGuid, st1);
    assert Extends(r, st1);
    assert o in r.objects[|r.objects| - |st1.objects|..];
  }

  /** A well-formed book: the sets of its direct objects, then those nested
      in them, each group newest first, in front of what was there; its
      GUID is the last `<book-guid>`'s. */
  lemma BookCollectsObjects(c: Node, ns: Option<Namespace>, supported: seq<string>, strtol: string -> int,
                            parseGuid: string -> Option<Guid>, st: LoadState)
    requires BookDeclared(c, ns, supported, parseGuid)
    requires IsBook(c, ns) && BookCountAccepted(c, strtol)
    requires !HasBadGuid(c.children, ns, parseGuid)
    ensures NestedDeclared(c.children, ns, supported)
    ensures var r := BookNodeHandler(c, ns, supported, strtol, parseGuid, st);
      && r.objects == Reverse(NestedObjectSets(c.children, ns, supported))
                      + (Reverse(ObjectSets(c.children, ns, supported)) + st.objects)
      && forall i | LastGuid(c.children, i, ns) :: r.bookGuid == parseGuid(c.children[i].content)
  {
    ObjectsPrepended(c.children, ns, supported, st);
    var st1 := Foreach(c.children, ns, ObjectCallback(supported), st);
    BookLoopObjects(c.children, ns, supported, parseGuid, st1);
    BookLoopGuid(c.children, ns, supported, parseGuid, st1);
  }

  /** The GUID scan runs outside the book test: a `<book-guid>` under a node
      that is not a book still sets the book's GUID. */
  lemma GuidScanOutsideBook(c: Node, ns: Option<Namespace>, supported: seq<string>, strtol: string -> int,
                            parseGuid: string -> Option<Guid>, st: LoadState, i: nat)
    requires BookDeclared(c, ns, supported, parseGuid)
    requires !IsBook(c, ns) && !HasBadGuid(c.children, ns, parseGuid)
    requires LastGuid(c.children, i, ns)
    ensures BookNodeHandler(c, ns, supported, strtol, parseGuid, st).bookGuid == parseGuid(c.children[i].content)
  {
    BookLoopGuid(c.children, ns, supported, parseGuid, st);
  }

  /** The count goes through a 32-bit conversion: a count `strtol` reads as
      2^32 + 1 passes the check as if it were 1. */
  lemma BookCountWrapsAround(c: Node, strtol: string -> int)
    requires BookCountAttr in c.attrs && strtol(c.attrs[BookCountAttr]) == 0x1_0000_0001
    ensures BookCountAccepted(c, strtol)
  {
  }
}
