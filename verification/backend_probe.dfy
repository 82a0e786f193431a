/** The backend flavour of the format probe: the same tally, but reporting
    through the session's error slot and remembering, in the session's file
    type, that the document has already been classified. */
module BackendProbe {
  import opened XmlTree
  import opened Validation

  /** The session's record of what kind of document it holds. Only the
      undetermined kind and the QSF-object kind matter here; every other
      kind the backend knows is folded into `OtherFileType`. */
  datatype FileType = QsfUndef | IsQsfObj | OtherFileType(code: nat)

  /** The backend error slot's vocabulary as far as this core writes it. */
  datatype BackendError =
    | NoErr
    | FileNotFound
    | ParseError
    | QsfInvalidObj
    | QsfNoMap
    | OtherError(code: nat)

  /** The fields of the backend parameters the probes read and write. */
  datatype Session = Session(filepath: Option<string>, fileType: FileType, lastError: BackendError)

  datatype Probe = Probe(session: Session, result: bool)

  /** `qof_backend_set_error`: the slot keeps the EARLIEST error; a new one
      is stored only while the slot holds no error. */
  function SetError(s: Session, e: BackendError): (r: Session)
    ensures r.filepath == s.filepath && r.fileType == s.fileType
    ensures s.lastError == NoErr ==> r.lastError == e
    ensures s.lastError != NoErr ==> r == s
  {
    if s.lastError != NoErr then s else s.(lastError := e)
  }

  /** `qof_backend_get_error`: reads the slot and clears it. */
  function GetError(s: Session): (r: (BackendError, Session))
    ensures r.0 == s.lastError
    ensures r.1 == s.(lastError := NoErr)
  {
    (s.lastError, s.(lastError := NoErr))
  }

  /** Whatever is reported later, the slot reports the first error set
      since it was last read, and reading leaves it empty. */
  lemma FirstErrorIsReported(s: Session, first: BackendError, later: seq<BackendError>)
    requires s.lastError == NoErr && first != NoErr
    ensures GetError(SetAll(SetError(s, first), later)).0 == first
    ensures GetError(SetAll(SetError(s, first), later)).1.lastError == NoErr
  {
    SetAllKeepsError(SetError(s, first), later);
  }

  /** Reporting a run of errors in turn. */
  function SetAll(s: Session, es: seq<BackendError>): Session
    decreases |es|
  {
    if |es| == 0 then s else SetAll(SetError(s, es[0]), es[1..])
  }

  lemma {:induction false} SetAllKeepsError(s: Session, es: seq<BackendError>)
    requires s.lastError != NoErr
    ensures SetAll(s, es) == s
    decreases |es|
  {
    if |es| > 0 {
      SetAllKeepsError(SetError(s, es[0]), es[1..]);
    }
  }

  /** `is_our_qsf_object_be`. `parsed` is what the parser makes of the file
      (`None` for a parse failure) and `schemaValid` the schema validator's
      verdict on it; both are consulted only on the path that parses. Every
      error goes through `SetError`, so an error already in the slot stays. */
  function IsOurQsfObjectBe(s: Session, parsed: Option<Node>, schemaValid: bool, registry: set<string>): (r: Probe)
    requires s.filepath.Some? && s.fileType == QsfUndef && parsed.Some? && schemaValid ==>
      GrandchildrenTyped(parsed.value.children, parsed.value.ns)
    ensures r.session.filepath == s.filepath
    ensures r.result ==> r.session == s.(fileType := IsQsfObj)
    ensures s.filepath.None? ==> r == Probe(SetError(s, FileNotFound), false)
    ensures s.filepath.Some? && s.fileType != QsfUndef ==> r == Probe(s, false)
    ensures s.filepath.Some? && s.fileType == QsfUndef && parsed.None? ==>
      r == Probe(SetError(s, ParseError), false)
    ensures s.filepath.Some? && s.fileType == QsfUndef && parsed.Some? && !schemaValid ==>
      r == Probe(SetError(s, QsfInvalidObj), false)
    ensures s.filepath.Some? && s.fileType == QsfUndef && parsed.Some? && schemaValid ==>
      && r.session.fileType == IsQsfObj
      && (r.result <==> forall x :: x in ObjectTypes(parsed.value) ==> x in registry)
      && r.session == SetError(s.(fileType := IsQsfObj), if r.result then NoErr else QsfNoMap)
  {
    if s.filepath.None? then Probe(SetError(s, FileNotFound), false)
    else if s.fileType != QsfUndef then Probe(s, false)
    else if parsed.None? then Probe(SetError(s, ParseError), false)
    else if !schemaValid then Probe(SetError(s, QsfInvalidObj), false)
    else
      var classified := s.(fileType := IsQsfObj);
      var valid := RunTally(parsed.value, registry);
      VerdictMeansAllRegistered(valid, registry);
      if Verdict(valid) then Probe(SetError(classified, NoErr), true)
      else Probe(SetError(classified, QsfNoMap), false)
  }

  /** Once classified, a session is never probed again: whatever the file
      would parse to, the answer is false and nothing changes. */
  lemma ClassifiedSessionIsNotReprobed(s: Session, p1: Option<Node>, v1: bool, reg1: set<string>,
                                       p2: Option<Node>, v2: bool, reg2: set<string>)
    requires s.filepath.Some? && s.fileType != QsfUndef
    ensures IsOurQsfObjectBe(s, p1, v1, reg1) == IsOurQsfObjectBe(s, p2, v2, reg2) == Probe(s, false)
  {
  }

  /** A probe that got past the schema classifies the session, so a second
      probe of it returns false without touching the error slot, even when
      the first one returned true. */
  lemma SecondProbeIsInert(s: Session, root: Node, registry: set<string>, later: Option<Node>, laterValid: bool)
    requires s.filepath.Some? && s.fileType == QsfUndef
    requires GrandchildrenTyped(root.children, root.ns)
    ensures var first := IsOurQsfObjectBe(s, Some(root), true, registry);
      IsOurQsfObjectBe(first.session, later, laterValid, registry) == Probe(first.session, false)
  {
  }

  /** A schema failure leaves the session unclassified, and records the
      invalid-object error when the slot was empty. */
  lemma SchemaFailureLeavesUndetermined(s: Session, root: Node, registry: set<string>)
    requires s.filepath.Some? && s.fileType == QsfUndef
    ensures IsOurQsfObjectBe(s, Some(root), false, registry).session.fileType == QsfUndef
    ensures s.lastError == NoErr ==>
      IsOurQsfObjectBe(s, Some(root), false, registry).session.lastError == QsfInvalidObj
  {
  }

  /** The backend probe and the plain probe agree on every unclassified
      session with a path. */
  lemma BackendProbeAgreesWithPlainProbe(s: Session, parsed: Option<Node>, schemaValid: bool, registry: set<string>)
    requires s.filepath.Some? && s.fileType == QsfUndef
    requires parsed.Some? && schemaValid ==> GrandchildrenTyped(parsed.value.children, parsed.value.ns)
    ensures IsOurQsfObjectBe(s, parsed, schemaValid, registry).result ==
            IsOurQsfObject(s.filepath, parsed, schemaValid, registry)
  {
  }

  /** What the pre-checks of `is_qsf_object_be` decide: stop with false, or
      go on to the map lookup (which is not part of this model). */
  datatype Precheck = Rejected(session: Session) | MapLookup(session: Session)

  /** The pre-checks of `is_qsf_object_be`. A missing path reports
      file-not-found. Otherwise the slot is read, which clears it; an
      invalid-object error found there stops the probe. An unclassified
      session is then parsed and validated, a failure reporting its error;
      a classified one is trusted without parsing. */
  function IsQsfObjectBePrecheck(s: Session, parsed: Option<Node>, schemaValid: bool): (r: Precheck)
    ensures r.session.filepath == s.filepath && r.session.fileType == s.fileType
    ensures s.filepath.None? ==> r == Rejected(SetError(s, FileNotFound))
    ensures s.filepath.Some? ==> r.session.lastError != NoErr ==> r.Rejected?
    ensures r.MapLookup? ==> r.session == s.(lastError := NoErr)
    ensures r.MapLookup? <==>
      && s.filepath.Some?
      && s.lastError != QsfInvalidObj
      && (s.fileType == QsfUndef ==> parsed.Some? && schemaValid)
    ensures s.filepath.Some? && s.lastError == QsfInvalidObj ==> r == Rejected(s.(lastError := NoErr))
    ensures s.filepath.Some? && s.lastError != QsfInvalidObj && s.fileType == QsfUndef ==>
      && (parsed.None? ==> r == Rejected(s.(lastError := ParseError)))
      && (parsed.Some? && !schemaValid ==> r == Rejected(s.(lastError := QsfInvalidObj)))
  {
    if s.filepath.None? then Rejected(SetError(s, FileNotFound))
    else
      var (err, s1) := GetError(s);
      if err == QsfInvalidObj then Rejected(s1)
      else if s1.fileType == QsfUndef then
        if parsed.None? then Rejected(SetError(s1, ParseError))
        else if !schemaValid then Rejected(SetError(s1, QsfInvalidObj))
        else MapLookup(s1)
      else MapLookup(s1)
  }

  /** After `is_our_qsf_object_be` recorded a schema failure in an empty
      slot, the full probe stops at once without parsing the file again. */
  lemma PrecheckSkipsAfterInvalidObject(s: Session, root: Node, registry: set<string>,
                                        later: Option<Node>, laterValid: bool)
    requires s.filepath.Some? && s.fileType == QsfUndef && s.lastError == NoErr
    ensures var first := IsOurQsfObjectBe(s, Some(root), false, registry);
      IsQsfObjectBePrecheck(first.session, later, laterValid) == Rejected(first.session.(lastError := NoErr))
  {
  }

  /** An earlier error in the slot masks the schema failure: the full probe
      does not see invalid-object and parses the file again. */
  lemma EarlierErrorMasksSchemaFailure(s: Session, root: Node, registry: set<string>, code: nat)
    requires s.filepath.Some? && s.fileType == QsfUndef && s.lastError == OtherError(code)
    ensures var first := IsOurQsfObjectBe(s, Some(root), false, registry);
      IsQsfObjectBePrecheck(first.session, None, false) == Rejected(s.(lastError := ParseError))
  {
  }

  /** The skip consumes the recorded error: a second full probe of the same
      unclassified session validates the file again. */
  lemma SkipHappensOnce(s: Session, root: Node, registry: set<string>)
    requires s.filepath.Some? && s.fileType == QsfUndef && s.lastError == NoErr
    ensures var first := IsOurQsfObjectBe(s, Some(root), false, registry);
      var second := IsQsfObjectBePrecheck(first.session, Some(root), false);
      IsQsfObjectBePrecheck(second.session, Some(root), false) == Rejected(s.(lastError := QsfInvalidObj))
  {
  }

  /** After a successful classification the full probe goes straight to the
      map lookup, again without parsing, unless an invalid-object error from
      before the probe is still waiting in the slot. */
  lemma PrecheckTrustsClassification(s: Session, root: Node, registry: set<string>,
                                     later: Option<Node>, laterValid: bool)
    requires s.filepath.Some? && s.fileType == QsfUndef && s.lastError != QsfInvalidObj
    requires GrandchildrenTyped(root.children, root.ns)
    ensures var first := IsOurQsfObjectBe(s, Some(root), true, registry);
      IsQsfObjectBePrecheck(first.session, later, laterValid) == MapLookup(first.session.(lastError := NoErr))
  {
  }
}
