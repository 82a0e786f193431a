# QSF object documents: classification and extraction

This project models the decision logic of the QSF (QOF Serialization Format) XML backend. The logic lives in `src/backend/qsf/qsf-xml.c` and runs over an XML tree that libxml has already parsed. It has four parts:

- **Element test and traversal.**
  - `qsf_is_element` decides whether a node is a given tag of a given namespace declaration.
  - `qsf_valid_foreach` and `qsf_node_foreach` hand every immediate child of a node to a callback, in document order.
- **Validation tally.**
  - `qsf_object_validation_handler` collects the distinct `type` names of the `<object>` elements among the root's grandchildren. It counts how many of those names the object registry knows.
  - `is_our_qsf_object` accepts the document exactly when every distinct type is registered.
- **Backend probe.** `is_our_qsf_object_be` is the same test run against a session. It records its outcome in the session's error slot and file type. The pre-checks of `is_qsf_object_be` then rely on that record.
- **Assembly.**
  - `qsf_parameter_handler` and `qsf_supported_data_types` key each parameter node by its `type` attribute.
  - `qsf_object_node_handler` builds one object set per `<object>` element and puts it at the front of the object list.
  - `qsf_book_node_handler` does three things. It checks the book count. It takes the book GUID. It handles objects found directly under the book and objects nested one level down.

Files and modules:

- `xml_tree.dfy` (`XmlTree`) holds the following:
  - the node tree;
  - namespace identity, where `Namespace.decl` stands for the address of a declaration, so two declarations with one URI differ;
  - the element test;
  - the generic fold `Foreach` over a node's children.
- `validation.dfy` (`Validation`) holds the tally, its verdict and `is_our_qsf_object`.
- `backend_probe.dfy` (`BackendProbe`) holds the session record, `is_our_qsf_object_be`, and the pre-checks of `is_qsf_object_be`.
- `assembly.dfy` (`Assembly`) holds the parameter, object and book handlers. The state they accumulate is the object list (newest first) and the book's GUID.

Everything the C code gets from outside is a parameter of the model:

- the parser's result (`parsed: Option<Node>`, where `None` is a parse failure);
- the schema validator's verdict (`schemaValid`);
- the object registry (the set `registry` of known type names);
- `strtol` (`string -> int`);
- `string_to_guid` (`string -> Option<Guid>`).

Some attributes are ones the C code dereferences without a check: an object's `type` in the tally, and its `count` in the object handler. The object schema requires both, so the model asks for them in `requires`.

## Model

| member | source | states |
|---|---|---|
| XmlTree.ElementHasOneTag | src/backend/qsf/qsf-xml.c:63-64 | a node passes the element test for at most one tag, so the `<book-guid>` and `<object>` tests of one child never both succeed |
| XmlTree.MatchIgnoresUri | src/backend/qsf/qsf-xml.c:63 | the answer depends on the declarations only: changing the URI of the node's declaration or of the target changes nothing |
| XmlTree.NamespaceIsIdentityNotUri | src/backend/qsf/qsf-xml.c:63 | a node declared in one namespace never matches a tag of another declaration, even one with the same URI |
| XmlTree.ForeachVisitsEveryChild | src/backend/qsf/qsf-xml.c:96-120 | the traversal hands the callback every child exactly once, in document order, unfiltered, always with the iteration's namespace |
| XmlTree.ForeachUncons | src/backend/qsf/qsf-xml.c:103-106 | traversing a non-empty child list is the callback on the first child followed by the traversal of the rest |
| XmlTree.ForeachSnoc | src/backend/qsf/qsf-xml.c:116-119 | traversing one more child at the end is one more callback on the state reached so far |
| Validation.Insert | src/backend/qsf/qsf-xml.c:134-144 | inserting a type adds it to the table; an already-seen type changes nothing; a new type raises the distinct count by one and the registered count by one exactly when the registry knows it; the counters stay in step with the table |
| Validation.Scan | src/backend/qsf/qsf-xml.c:130-146 | scanning one node's children adds exactly the types of its object elements to the table and keeps the counters in step |
| Validation.ValidationHandler | src/backend/qsf/qsf-xml.c:122-147 | the handler adds exactly the types declared by the object elements among the child's children |
| Validation.TallyOverChildren | src/backend/qsf/qsf-xml.c:170 | traversing the root's children with the handler adds exactly the types declared among the grandchildren and keeps the counters consistent |
| Validation.RunTally | src/backend/qsf/qsf-xml.c:166-171 | from an empty table the table ends as exactly the set of declared object types, the distinct count is its size, the registered count is the number of its entries the registry knows, and registered never exceeds distinct |
| Validation.VerdictMeansAllRegistered | src/backend/qsf/qsf-xml.c:171-173 | table size equal to the registered count holds exactly when every distinct type is registered |
| Validation.IsOurQsfObject | src/backend/qsf/qsf-xml.c:149-175 | true exactly when a path is given, the file parses, the schema accepts it and every distinct declared object type is registered |
| Validation.EmptyDocumentIsOurs | src/backend/qsf/qsf-xml.c:171-173 | a valid document with no object elements is accepted |
| Validation.RepeatedTypesKeepVerdict | src/backend/qsf/qsf-xml.c:136-137 | further objects whose types already occur do not change the verdict |
| BackendProbe.IsOurQsfObjectBe | src/backend/qsf/qsf-xml.c:190-232 | a missing path reports file-not-found and gives false; a classified session gives false and is left untouched; a parse failure reports parse-error; a schema failure reports invalid-object and leaves the file type undefined; otherwise the file type becomes QSF-object and the result is true exactly when every type is registered, reporting no-error or no-map; every report keeps an error already in the slot, so a true answer leaves the slot as it was |
| BackendProbe.FirstErrorIsReported | src/backend/qsf/qsf-xml.c:202-246 | once an error is set in an empty slot, later reports leave it there, and the next read returns it and empties the slot |
| BackendProbe.ClassifiedSessionIsNotReprobed | src/backend/qsf/qsf-xml.c:205 | once the file type is set the probe returns false and leaves the session as it was, whatever the file holds |
| BackendProbe.SecondProbeIsInert | src/backend/qsf/qsf-xml.c:205-216 | a probe that passed the schema classifies the session, so a second probe is inert even after a true answer |
| BackendProbe.SchemaFailureLeavesUndetermined | src/backend/qsf/qsf-xml.c:211-215 | a schema failure leaves the file type undefined and, when the slot was empty, records invalid-object |
| BackendProbe.BackendProbeAgreesWithPlainProbe | src/backend/qsf/qsf-xml.c:149-232 | on an unclassified session with a path, the backend probe answers as the plain probe does |
| BackendProbe.IsQsfObjectBePrecheck | src/backend/qsf/qsf-xml.c:234-259 | a missing path reports file-not-found; otherwise reading the slot clears it, and the probe goes on to the map lookup exactly when the slot did not hold invalid-object and an unclassified file parses and passes the schema; a failure on the way stops with parse-error or invalid-object in the slot |
| BackendProbe.PrecheckSkipsAfterInvalidObject | src/backend/qsf/qsf-xml.c:245-246 | after the backend probe recorded a schema failure in an empty slot, the pre-check stops at once whatever the file holds, and the read clears the slot |
| BackendProbe.EarlierErrorMasksSchemaFailure | src/backend/qsf/qsf-xml.c:211-253 | when another error already sat in the slot, the schema failure is not recorded, so the pre-check parses the file again instead of skipping |
| BackendProbe.SkipHappensOnce | src/backend/qsf/qsf-xml.c:246-258 | the skip consumes the recorded error: a second pre-check of the same unclassified session validates the file again and records invalid-object anew |
| BackendProbe.PrecheckTrustsClassification | src/backend/qsf/qsf-xml.c:246-261 | after the backend probe classified the file, the pre-check goes to the map lookup without parsing, unless an invalid-object error from before is still in the slot |
| Assembly.SupportedDataTypes | src/backend/qsf/qsf-xml.c:264-277 | a child whose tag is one of the supported names is stored under its `type` attribute, replacing the old value; any other child leaves the map unchanged |
| Assembly.ParameterKeys | src/backend/qsf/qsf-xml.c:279-284 | after the traversal, a key is in the map exactly when it was already there or some supported child carries it |
| Assembly.ParameterLastWins | src/backend/qsf/qsf-xml.c:272-276 | each key holds the last child that carries it |
| Assembly.ObjectParameters | src/backend/qsf/qsf-xml.c:303-311 | an object's fresh map has exactly the keys its supported children carry, each bound to the last such child |
| Assembly.ObjectNodeHandler | src/backend/qsf/qsf-xml.c:288-313 | a node that is not an object leaves the state unchanged; an object adds exactly one set at the front, holding its `type` and its parameter map; the GUID is never touched |
| Assembly.ObjectSetsMembers | src/backend/qsf/qsf-xml.c:299-308 | every object element has its set among the collected sets, and every collected set comes from an object element |
| Assembly.ObjectsPrepended | src/backend/qsf/qsf-xml.c:308-311 | the traversal with the object handler puts the sets of the object elements in front of the list in reverse document order and changes nothing else |
| Assembly.RepeatedObjectsKept | src/backend/qsf/qsf-xml.c:301-308 | one more object element adds one more set, even when its type repeats an earlier one |
| Assembly.ToCInt | src/backend/qsf/qsf-xml.c:328 | the `(int)` conversion yields a 32-bit value congruent to its argument modulo 2^32 that equals the argument whenever the argument fits |
| Assembly.BookLoopStep | src/backend/qsf/qsf-xml.c:338-347 | for a child that is not a malformed `<book-guid>`: a `<book-guid>` sets the GUID to the one its text holds; an object child prepends the sets of its own objects, newest first; other children change nothing |
| Assembly.BookLoop | src/backend/qsf/qsf-xml.c:335-348 | the loop only ever puts new sets in front of the list, never dropping or reordering what is there |
| Assembly.BadGuidStopsScan | src/backend/qsf/qsf-xml.c:340 | a `<book-guid>` that does not parse ends the loop: the result is that of the children before it alone |
| Assembly.BookLoopObjects | src/backend/qsf/qsf-xml.c:335-348 | without a malformed GUID the loop prepends the sets of all objects nested in object children, newest first |
| Assembly.BookLoopGuid | src/backend/qsf/qsf-xml.c:338-343 | without a malformed GUID the GUID ends as the last `<book-guid>`'s, and stays as it was when there is none |
| Assembly.BookNodeHandler | src/backend/qsf/qsf-xml.c:315-349 | a book whose present count does not convert to 1 leaves the state unchanged, whatever its children hold; otherwise only the children the loop reaches need to be well-formed objects; in every case the handler only adds sets in front |
| Assembly.DirectObjectsYieldSets | src/backend/qsf/qsf-xml.c:332-333 | a book that passes the count check yields a set for each object directly under it, even if a malformed GUID follows |
| Assembly.BookCollectsObjects | src/backend/qsf/qsf-xml.c:325-348 | a well-formed book puts in front the sets of its direct objects and then those of the objects nested in them, each group newest first, and takes the last GUID |
| Assembly.GuidScanOutsideBook | src/backend/qsf/qsf-xml.c:335-343 | the GUID scan runs for any node, so a `<book-guid>` under a node that is not a book still sets the GUID |
| Assembly.BookCountWrapsAround | src/backend/qsf/qsf-xml.c:328-330 | a count that `strtol` reads as 2^32 + 1 passes the check, because of the 32-bit conversion |

## Left out

- XML parsing (`xmlParseFile`) and schema validation (`qsf_is_valid`, lines 74-94) come from libxml. They are inputs to the model: a parse result and a boolean verdict.
- `qsf_compare_tag_strings` and `qsf_strings_equal` (lines 44-55) are modelled as string equality inside `IsElement`. `xmlStrcmp` is part of libxml.
- `qsf_check_tag` (lines 68-72) is `qsf_is_element` on two fields of the parameter block, so it is not modelled separately.
- `qof_class_is_registered` is the set `registry`. `string_to_guid` is the function `parseGuid`. `strtol` is the function `strtol`. None of them is interpreted.
- `qof_entity_set_guid` is modelled as storing the GUID in the state's `bookGuid`.
- `qof_backend_set_error` and `qof_backend_get_error` live in `qofbackend.c`, which is not part of this model. The model gives them QOF's slot behaviour: setting an error keeps an error already in the slot, and reading the slot clears it (`SetError`, `GetError`).
- `is_qsf_object`, `is_qsf_object_with_map` and `is_qsf_object_with_map_be` are left out: their map logic is not part of this model. For `is_qsf_object_be` only the pre-checks are modelled; `Precheck.MapLookup` marks the hand-over.
- The following are left out because they do not affect any result:
  - memory handling (`qsf_free_params`, `g_free`, the documents that are never freed);
  - `PINFO` logging;
  - the `iter->fcn` / `v_fcn` bookkeeping;
  - the critical warnings of `g_return_*`;
  - the `params->qsf_ns`, `params->object_set` and `params->param_node` side fields.
- The NULL `params` and NULL `child` guards are left out: the model has no null session or null node.
- The tag and attribute names (`object`, `type`, `count`, `book`, `book-guid`) come from `qsf-xml.h`, which is not part of this model. The proofs depend only on the names being distinct where the code compares them.
- In `is_our_qsf_object_be` the distinct-object counter is never initialised. It is also never read, so the model starts it at zero.
- `qsf_object_node_handler` parses the object's `count` (lines 305-306) and discards it. A parameter map stores the parameter node itself, not its text (lines 274-275). The model does the same.
- Validation.IsOurQsfObject: a document with an object element that lacks `type` is outside the precondition. The C code hashes the null attribute and crashes. The schema makes the attribute required.
- Assembly.ObjectNodeHandler: an object element that lacks `count` is outside the precondition, because `strtol` would be handed a null pointer. A supported parameter without `type` is outside it too, because the hash table would receive a null key.
- Assembly.BookLoop: its own contract states only that sets are added in front. What it adds and which GUID it keeps are stated by `BookLoopObjects`, `BookLoopGuid` and `BadGuidStopsScan`.
