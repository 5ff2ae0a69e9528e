/**
 * com.anode.tool.document.XDocument: construction and validation.
 *
 * The class keeps static state shared by every document (the registry of
 * model documents, the default validation policy and the XML mapper) and,
 * per document, its type, its validation policy, whether it has been
 * validated and its parsed root node. The static state is the Registry
 * object every operation receives. Jackson's XmlMapper.readTree is taken as
 * given: a function from XML text to a root node of type J, or to the text
 * of the IOException it throws. Each RuntimeException the Java code throws
 * is a Fail / Failure carrying a DocError.
 */
module Documents {
  import opened Wrappers
  import opened JavaLang

  /**
   * Document.validationTypes. Only ALL_DATA_PATHS and ONLY_AT_READ_WRITE
   * are named by the code; every behaviour here depends only on whether a
   * policy is ONLY_AT_READ_WRITE.
   */
  datatype ValidationType = AllDataPaths | OnlyModelPaths | OnlyAtReadWrite

  /** The exceptions construction and validation throw. */
  datatype DocError =
    | MissingType                     // type null or empty
    | ReadFailed(cause: string)       // readTree threw an IOException
    | ModelNotFound(docType: string)  // no model document registered for the type
    | ValidationFailed(lines: string) // processErrors on a non-empty list
    | Unsupported(operation: string)  // an unimplemented Document method
    | NullPointer                     // ConcurrentHashMap.get(null)
  {
    /** The RuntimeException message the code builds. */
    function Message(): string
    {
      match this
      case MissingType => "jdoc_err_56"
      case ReadFailed(cause) => "jdoc_err_1" + cause
      case ModelNotFound(t) => "Document model not found for " + t
      case ValidationFailed(lines) => "jdoc_err_28" + lines
      case Unsupported(op) => "Unimplemented method '" + op + "'"
      case NullPointer => ""
    }
  }

  /** The document readTree parses when no XML is given. */
  const EmptyXml: string := "<root></root>"

  /** NEW_LINE, the platform line separator, fixed to a line feed. */
  const NewLine: char := '\n'

  /** The static fields of XDocument, shared by every document. */
  class Registry<J> {
    /** docModels: the root node of the model document of each type. */
    var docModels: map<string, J>
    var defaultValidationType: ValidationType
    /** xmlMapper.readTree. */
    const readTree: string -> Result<J, string>

    /** Class initialisation: no model is registered and the default policy is ALL_DATA_PATHS. */
    constructor (readTree: string -> Result<J, string>)
      ensures docModels == map[] && defaultValidationType == AllDataPaths
      ensures this.readTree == readTree
    {
      docModels := map[];
      defaultValidationType := AllDataPaths;
      this.readTree := readTree;
    }

    /** Static init(validationType): sets the default policy and nothing else. */
    method SetDefaultValidationType(vt: ValidationType)
      modifies this`defaultValidationType
      ensures defaultValidationType == vt
    {
      defaultValidationType := vt;
    }

    /** Static init(): back to ALL_DATA_PATHS. */
    method ResetDefaultValidationType()
      modifies this`defaultValidationType
      ensures defaultValidationType == AllDataPaths
    {
      SetDefaultValidationType(AllDataPaths);
    }
  }

  /** The lines of the aggregate validation error: every entry followed by NEW_LINE, in order. */
  function Lines(errors: seq<string>): string
  {
    if errors == [] then ""
    else Lines(errors[..|errors| - 1]) + errors[|errors| - 1] + [NewLine]
  }

  /** The aggregate is the entries joined by NEW_LINE with one more NEW_LINE at the end. */
  lemma {:induction false} LinesJoin(errors: seq<string>)
    ensures Lines(errors) == Join(errors + [""], NewLine)
    decreases |errors|
  {
    if errors != [] {
      var n := |errors|;
      var front := errors[..n - 1];
      var e := errors[n - 1];
      LinesJoin(front);
      assert errors == front + [e];
      if front == [] {
        assert Join([e, ""], NewLine) == e + [NewLine] + Join([""], NewLine);
      } else {
        JoinSnoc(front, "", NewLine);
        JoinSnoc(front, e, NewLine);
        JoinSnoc(front + [e], "", NewLine);
        assert errors + [""] == front + [e] + [""];
      }
    }
  }

  /**
   * When no entry holds a line separator, the entries can be read back from
   * the aggregate: splitting it at every NEW_LINE gives them in order,
   * followed by the empty text after the last separator.
   */
  lemma LinesRecover(errors: seq<string>)
    requires forall k :: 0 <= k < |errors| ==> NewLine !in errors[k]
    ensures SplitAll(Lines(errors), NewLine) == errors + [""]
  {
    LinesJoin(errors);
    var ps := errors + [""];
    assert forall k :: 0 <= k < |ps| ==> NewLine !in ps[k] by {
      forall k | 0 <= k < |ps|
        ensures NewLine !in ps[k]
      {
        if k < |errors| {
          assert ps[k] == errors[k];
        }
      }
    }
    SplitAllJoin(ps, NewLine);
  }

  /**
   * processErrors: nothing on an empty list; otherwise one error whose text
   * is every entry, in order, each followed by NEW_LINE.
   */
  method ProcessErrors(errorList: seq<string>) returns (o: Outcome<DocError>)
    ensures errorList == [] <==> o == Pass
    ensures errorList != [] ==> o == Fail(ValidationFailed(Lines(errorList)))
  {
    if |errorList| > 0 {
      var sb := "";
      for i := 0 to |errorList|
        invariant sb == Lines(errorList[..i])
      {
        var s := errorList[i] + [NewLine];
        assert errorList[..i + 1][..i] == errorList[..i];
        sb := sb + s;
      }
      assert errorList[..|errorList|] == errorList;
      return Fail(ValidationFailed(sb));
    }
    return Pass;
  }

  /** The node-level validate compares nothing and reports no error. */
  function ValidateNodes<J>(modelNode: J, documentNode: Option<J>, path: string, docType: string, vt: ValidationType): (errors: seq<string>)
    ensures errors == []
  {
    []
  }

  class XDocument<J> {
    var docType: string
    var validationType: ValidationType
    var isValidated: bool
    var rootNode: Option<J>

    /** The field initialisers, which run before every constructor body. */
    constructor Blank()
      ensures docType == "" && validationType == AllDataPaths
      ensures !isValidated && rootNode == None
    {
      docType := "";
      validationType := AllDataPaths;
      isValidated := false;
      rootNode := None;
    }

    /** XDocument(): the empty document, untyped. */
    static method Untyped(registry: Registry<J>) returns (r: Result<XDocument<J>, DocError>)
      ensures registry.readTree(EmptyXml).Failure? <==> r.Failure?
      ensures r.Failure? ==> r.error == ReadFailed(registry.readTree(EmptyXml).error)
      ensures r.Success? ==> fresh(r.value) && r.value.rootNode == Some(registry.readTree(EmptyXml).value)
      ensures r.Success? ==> r.value.GetType() == "" && r.value.validationType == AllDataPaths && !r.value.isValidated
    {
      var d := new XDocument<J>.Blank();
      var parsed := registry.readTree(EmptyXml);
      if parsed.Failure? {
        return Failure(ReadFailed(parsed.error));
      }
      d.rootNode := Some(parsed.value);
      return Success(d);
    }

    /** XDocument(xml): the parsed document, untyped. */
    static method FromXml(registry: Registry<J>, xml: string) returns (r: Result<XDocument<J>, DocError>)
      ensures registry.readTree(xml).Failure? <==> r.Failure?
      ensures r.Failure? ==> r.error == ReadFailed(registry.readTree(xml).error)
      ensures r.Success? ==> fresh(r.value) && r.value.rootNode == Some(registry.readTree(xml).value)
      ensures r.Success? ==> r.value.GetType() == "" && r.value.validationType == AllDataPaths && !r.value.isValidated
    {
      var d := new XDocument<J>.Blank();
      var parsed := registry.readTree(xml);
      if parsed.Failure? {
        return Failure(ReadFailed(parsed.error));
      }
      d.rootNode := Some(parsed.value);
      return Success(d);
    }

    /** XDocument(type, xml, validationType): a blank document run through init. */
    static method Typed(registry: Registry<J>, docType: Option<string>, xml: Option<string>, vt: ValidationType)
      returns (r: Result<XDocument<J>, DocError>)
      ensures docType.None? || docType.value == "" ==> r == Failure(MissingType)
      ensures docType.Some? && docType.value != "" && registry.readTree(XmlOrEmpty(xml)).Failure? ==>
                r == Failure(ReadFailed(registry.readTree(XmlOrEmpty(xml)).error))
      ensures docType.Some? && docType.value != "" && registry.readTree(XmlOrEmpty(xml)).Success? ==>
                (r.Success? <==> vt == OnlyAtReadWrite)
      ensures docType.Some? && docType.value != "" && registry.readTree(XmlOrEmpty(xml)).Success?
              && vt != OnlyAtReadWrite ==>
                r == Failure(if docType.value !in registry.docModels then ModelNotFound(docType.value) else Unsupported("isTyped"))
      ensures r.Success? ==> fresh(r.value) && r.value.GetType() == docType.value && r.value.validationType == vt
      ensures r.Success? ==> !r.value.isValidated && r.value.rootNode == Some(registry.readTree(XmlOrEmpty(xml)).value)
    {
      var d := new XDocument<J>.Blank();
      var o := d.Init(registry, docType, xml, vt);
      if o.Fail? {
        return Failure(o.error);
      }
      return Success(d);
    }

    /** XDocument(type, xml): init with the current default policy. */
    static method TypedDefault(registry: Registry<J>, docType: Option<string>, xml: Option<string>)
      returns (r: Result<XDocument<J>, DocError>)
      ensures docType.None? || docType.value == "" ==> r == Failure(MissingType)
      ensures docType.Some? && docType.value != "" && registry.readTree(XmlOrEmpty(xml)).Failure? ==>
                r == Failure(ReadFailed(registry.readTree(XmlOrEmpty(xml)).error))
      ensures docType.Some? && docType.value != "" && registry.readTree(XmlOrEmpty(xml)).Success? ==>
                (r.Success? <==> registry.defaultValidationType == OnlyAtReadWrite)
      ensures docType.Some? && docType.value != "" && registry.readTree(XmlOrEmpty(xml)).Success?
              && registry.defaultValidationType != OnlyAtReadWrite ==>
                r == Failure(if docType.value !in registry.docModels then ModelNotFound(docType.value) else Unsupported("isTyped"))
      ensures r.Success? ==> fresh(r.value) && r.value.GetType() == docType.value && r.value.validationType == registry.defaultValidationType
      ensures r.Success? ==> !r.value.isValidated && r.value.rootNode == Some(registry.readTree(XmlOrEmpty(xml)).value)
    {
      r := Typed(registry, docType, xml, registry.defaultValidationType);
    }

    /**
     * The private init: a null or empty type fails before any field is
     * assigned. Otherwise the policy and the type are stored, the XML (the
     * empty document for null) is parsed into rootNode, and unless the
     * policy is ONLY_AT_READ_WRITE the document is validated against its
     * type. isValidated never changes.
     */
    method Init(registry: Registry<J>, docType: Option<string>, xml: Option<string>, vt: ValidationType)
      returns (o: Outcome<DocError>)
      modifies this
      ensures isValidated == old(isValidated)
      ensures docType.None? || docType.value == "" ==>
                o == Fail(MissingType) && this.docType == old(this.docType)
                && validationType == old(validationType) && rootNode == old(rootNode)
      ensures docType.Some? && docType.value != "" ==> this.docType == docType.value && validationType == vt
      ensures docType.Some? && docType.value != "" && registry.readTree(XmlOrEmpty(xml)).Failure? ==>
                o == Fail(ReadFailed(registry.readTree(XmlOrEmpty(xml)).error)) && rootNode == old(rootNode)
      ensures docType.Some? && docType.value != "" && registry.readTree(XmlOrEmpty(xml)).Success? ==>
                rootNode == Some(registry.readTree(XmlOrEmpty(xml)).value)
                && o == (if vt == OnlyAtReadWrite then Pass
                         else if docType.value !in registry.docModels then Fail(ModelNotFound(docType.value))
                         else Fail(Unsupported("isTyped")))
    {
      if docType.None? || docType.value == "" {
        return Fail(MissingType);
      }
      validationType := vt;
      this.docType := docType.value;
      var parsed := if xml.None? then registry.readTree(EmptyXml) else registry.readTree(xml.value);
      if parsed.Failure? {
        return Fail(ReadFailed(parsed.error));
      }
      rootNode := Some(parsed.value);
      if vt != OnlyAtReadWrite {
        o := ValidateAs(registry, docType.value, vt);
      } else {
        o := Pass;
      }
    }

    /**
     * The private validate(type, validationType): fails when no model is
     * registered for the type; otherwise the (empty) node-level errors go
     * through processErrors and isTyped() throws, so the document is never
     * marked validated.
     */
    method ValidateAs(registry: Registry<J>, docType: string, vt: ValidationType) returns (o: Outcome<DocError>)
      modifies this`isValidated
      ensures isValidated == old(isValidated)
      ensures docType !in registry.docModels ==> o == Fail(ModelNotFound(docType))
      ensures docType in registry.docModels ==> o == Fail(Unsupported("isTyped"))
    {
      if docType !in registry.docModels {
        return Fail(ModelNotFound(docType));
      }
      var md := registry.docModels[docType];
      var errorList := ValidateNodes(md, rootNode, "$.", docType, vt);
      var processed := ProcessErrors(errorList);
      if processed.Fail? {
        return processed;
      }
      var typed := IsTyped();
      // isValidated becomes true only when isTyped() answers true
      isValidated := isValidated || typed == Success(true);
      o := if typed.Failure? then Fail(typed.error) else Pass;
    }

    /** The deprecated public validate(type): always the ALL_DATA_PATHS policy. */
    method Validate(registry: Registry<J>, docType: Option<string>) returns (o: Outcome<DocError>)
      modifies this`isValidated
      ensures isValidated == old(isValidated)
      ensures docType.None? ==> o == Fail(NullPointer)
      ensures docType.Some? && docType.value !in registry.docModels ==> o == Fail(ModelNotFound(docType.value))
      ensures docType.Some? && docType.value in registry.docModels ==> o == Fail(Unsupported("isTyped"))
    {
      if docType.None? {
        return Fail(NullPointer);
      }
      o := ValidateAs(registry, docType.value, AllDataPaths);
    }

    /** isTyped() is not implemented: it always throws. */
    function IsTyped(): (r: Result<bool, DocError>)
      ensures r.Failure? && r.error == Unsupported("isTyped")
    {
      Failure(Unsupported("isTyped"))
    }

    /** getType: the type given to init, or "" for a document built without one. */
    function GetType(): (t: string)
      reads this
      ensures t == docType
    {
      docType
    }
  }

  /** The text init parses: the XML given, or the empty document for null. */
  function XmlOrEmpty(xml: Option<string>): string
  {
    if xml.None? then EmptyXml else xml.value
  }
}
