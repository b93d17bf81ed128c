/** Adding security documentation to an OpenAPI document
    (scripts/add-security-requirements-to-openapi.py). */
module OpenApi {
  import opened Text

  datatype RateLimit = RateLimit(burst: nat, sustained: nat, daily: nat, window: nat, unit: string)

  /** One entry of the script's table. */
  datatype Requirement = Requirement(authRequired: bool, authMethods: seq<string>, roles: seq<string>,
                                     scopes: seq<string>, rate: Option<RateLimit>)

  datatype Header = Header(description: string, example: nat)

  /** The parts of an operation that the script reads or writes. The 429 response
      may be missing, and may have no headers. */
  datatype Operation = Operation(description: Option<string>, security: Option<seq<string>>,
                                 limited: Option<Option<map<string, Header>>>)

  datatype Scheme = Scheme(kind: string, description: Option<string>)

  datatype Entry = Entry(path: string, httpMethod: string, operation: Operation)

  /** A document: whether it says `openapi` at all, its operations, and its
      security schemes. */
  datatype Spec = Spec(isOpenApi: bool, operations: seq<Entry>, schemes: Option<map<string, Scheme>>)

  // ------------------------------------------------------------------- sections

  function AuthSection(r: Requirement): string {
    "\n\n**Authentication**: "
    + if r.authRequired then "Required (" + Join(r.authMethods, ", ") + ")" else "Not required (public endpoint)"
  }

  function AuthzSection(r: Requirement): string {
    "\n\n**Authorization**: "
    + Join((if r.roles != [] then ["Required role(s): " + Join(r.roles, ", ")] else [])
           + (if r.scopes != [] then ["Required scope(s): " + Join(r.scopes, ", ")] else []), "; ")
  }

  function RateSection(l: RateLimit): string {
    "\n\n**Rate Limiting**: " + Decimal(l.sustained) + " requests per " + Decimal(l.window) + " seconds " + l.unit
    + (if l.burst != 0 then " (burst: " + Decimal(l.burst) + " per 10 seconds)" else "")
    + (if l.daily != 0 then " (daily: " + Decimal(l.daily) + " per day)" else "")
  }

  const VALIDATION :=
    "\n\n**Input Validation**: All request fields validated "
    + "(types, formats, lengths, patterns, enums). See request schema for details."

  /** The sections that an operation gets, in order. */
  function Sections(r: Requirement): seq<string> {
    [AuthSection(r)]
    + (if r.roles != [] || r.scopes != [] then [AuthzSection(r)] else [])
    + (if r.rate.Some? then [RateSection(r.rate.value)] else [])
    + [VALIDATION]
  }

  function AddSection(text: string, section: string): string {
    if Contains(text, section) then text else text + section
  }

  function AddSections(text: string, sections: seq<string>): string
    decreases |sections|
  {
    if sections == [] then text else AddSections(AddSection(text, sections[0]), sections[1..])
  }

  lemma {:induction false} AddSectionsExtends(text: string, sections: seq<string>)
    ensures text <= AddSections(text, sections)
    ensures forall p :: Contains(text, p) ==> Contains(AddSections(text, sections), p)
    decreases |sections|
  {
    if sections != [] {
      var next := AddSection(text, sections[0]);
      AddSectionsExtends(next, sections[1..]);
      forall p | Contains(text, p) ensures Contains(next, p) {
        ContainsAppend(text, sections[0], p);
      }
    }
  }

  lemma {:induction false} AddSectionsComplete(text: string, sections: seq<string>)
    ensures forall s :: s in sections ==> Contains(AddSections(text, sections), s)
    decreases |sections|
  {
    if sections != [] {
      var s := sections[0];
      var next := AddSection(text, s);
      assert Contains(s, s) by {
        assert OccursAt(s, s, 0);
      }
      ContainsAppend(text, s, s);
      assert Contains(next, s);
      AddSectionsExtends(next, sections[1..]);
      AddSectionsComplete(next, sections[1..]);
      assert sections == [s] + sections[1..];
    }
  }

  lemma {:induction false} AddSectionsNothing(text: string, sections: seq<string>)
    requires forall s :: s in sections ==> Contains(text, s)
    ensures AddSections(text, sections) == text
    decreases |sections|
  {
    if sections != [] {
      assert sections[0] in sections;
      AddSectionsNothing(text, sections[1..]);
    }
  }

  /** Adding the sections to any text: the text stays as a prefix, every section
      is in the result, adding them again changes nothing, and nothing is added
      exactly when every section was there already. */
  lemma AddSectionsLaws(text: string, sections: seq<string>)
    ensures var r := AddSections(text, sections);
            && text <= r
            && (forall s :: s in sections ==> Contains(r, s))
            && AddSections(r, sections) == r
            && (r == text <==> forall s :: s in sections ==> Contains(text, s))
  {
    var r := AddSections(text, sections);
    AddSectionsExtends(text, sections);
    AddSectionsComplete(text, sections);
    AddSectionsNothing(r, sections);
    if forall s :: s in sections ==> Contains(text, s) {
      AddSectionsNothing(text, sections);
    }
  }

  // ------------------------------------------------------------------ operations

  const BOTH_SCHEMES := ["BearerAuth", "ApiKeyAuth"]

  function Lower(c: char): char {
    if 'A' <= c <= 'Z' then (c as int + 32) as char else c
  }

  function LowerCase(s: string): string {
    seq(|s|, i requires 0 <= i < |s| => Lower(s[i]))
  }

  predicate OptionalAuth(r: Requirement) {
    exists i :: 0 <= i < |r.authMethods| && Contains(LowerCase(r.authMethods[i]), "optional")
  }

  function DefaultHeaders(r: Requirement): map<string, Header> {
    map["X-RateLimit-Limit" := Header("Maximum number of requests allowed in the current window",
                                      if r.rate.Some? then r.rate.value.sustained else 20),
        "X-RateLimit-Remaining" := Header("Number of requests remaining in the current window", 0),
        "X-RateLimit-Reset" := Header("Unix timestamp when rate limit resets", 1736868000),
        "Retry-After" := Header("Number of seconds to wait before retrying", 30)]
  }

  function TextOf(description: Option<string>): string {
    if description.Some? then description.value else ""
  }

  /** What `enhance_operation` makes of an operation: missing sections appended,
      missing security and headers filled in, existing ones kept. */
  function EnhancedOperation(op: Operation, r: Requirement): Operation {
    Operation(
      Some(AddSections(TextOf(op.description), Sections(r))),
      if op.security.None? && (r.authRequired || (r.authMethods != [] && OptionalAuth(r))) then Some(BOTH_SCHEMES)
      else op.security,
      if op.limited.None? then None
      else Some(Some(DefaultHeaders(r) + if op.limited.value.Some? then op.limited.value.value else map[])))
  }

  // --------------------------------------------------------------------- schemes

  const BEARER := Scheme("http", Some("JWT Bearer token authentication. " + "Include token in Authorization header: "
                                      + "\"Bearer {token}\". Tokens expire after 1 hour "
                                      + "and can be refreshed using refresh tokens."))

  const API_KEY := Scheme("apiKey", Some("API key authentication. Include key " + "in Authorization header: "
                                         + "\"ApiKey {key}\" or in X-API-Key header. "
                                         + "API keys can have scopes to limit access "
                                         + "and can be expired or revoked."))

  function EnhancedScheme(schemes: map<string, Scheme>, name: string, standard: Scheme): map<string, Scheme> {
    if name !in schemes then schemes[name := standard]
    else if schemes[name].description.None? || |schemes[name].description.value| < 50 then
      schemes[name := schemes[name].(description := standard.description)]
    else schemes
  }

  function EnhancedSchemes(schemes: map<string, Scheme>): map<string, Scheme> {
    EnhancedScheme(EnhancedScheme(schemes, "BearerAuth", BEARER), "ApiKeyAuth", API_KEY)
  }

  // -------------------------------------------------------------------- document

  function Described(e: Entry, text: string): Entry {
    e.(operation := e.operation.(description := Some(text)))
  }

  predicate Handled(httpMethod: string) {
    || httpMethod == "get" || httpMethod == "post" || httpMethod == "put" || httpMethod == "patch"
    || httpMethod == "delete"
  }

  function EnhancedEntry(e: Entry, table: map<string, Requirement>): Entry {
    if Handled(e.httpMethod) && e.path in table then e.(operation := EnhancedOperation(e.operation, table[e.path]))
    else e
  }

  function EnhancedSpec(spec: Spec, table: map<string, Requirement>): Spec {
    if !spec.isOpenApi then spec
    else Spec(true,
              seq(|spec.operations|, i requires 0 <= i < |spec.operations| => EnhancedEntry(spec.operations[i], table)),
              Some(EnhancedSchemes(if spec.schemes.Some? then spec.schemes.value else map[])))
  }

  class Document {
    var isOpenApi: bool
    var operations: seq<Entry>
    var schemes: Option<map<string, Scheme>>

    constructor (spec: Spec)
      ensures Contents() == spec
    {
      isOpenApi, operations, schemes := spec.isOpenApi, spec.operations, spec.schemes;
    }

    function Contents(): Spec
      reads this
    {
      Spec(isOpenApi, operations, schemes)
    }

    /** The section part of `enhance_operation`, one check and append at a time. */
    method AppendSections(i: nat, sections: seq<string>) returns (enhanced: bool)
      requires i < |operations|
      modifies this`operations
      ensures var text := TextOf(old(operations)[i].operation.description);
              && (enhanced <==> AddSections(text, sections) != text)
              && operations == if enhanced
                 then old(operations)[i := Described(old(operations)[i], AddSections(text, sections))]
                 else old(operations)
    {
      enhanced := false;
      ghost var text := TextOf(operations[i].operation.description);
      ghost var before := operations[i];
      for k := 0 to |sections|
        invariant |operations| == |old(operations)|
        invariant var now := TextOf(operations[i].operation.description);
                  text <= now && AddSections(now, sections[k..]) == AddSections(text, sections)
                  && (enhanced <==> now != text)
        invariant operations == if enhanced
                    then old(operations)[i := Described(before, TextOf(operations[i].operation.description))]
                    else old(operations)
      {
        assert sections[k..][1..] == sections[k + 1..];
        var description := TextOf(operations[i].operation.description);
        if !Contains(description, sections[k]) {
          if sections[k] == "" {
            assert OccursAt(description, sections[k], 0);
          }
          operations := operations[i := Described(operations[i], description + sections[k])];
          enhanced := true;
        }
      }
    }

    /** `enhance_operation` */
    method EnhanceOperation(i: nat, r: Requirement) returns (enhanced: bool)
      requires i < |operations|
      modifies this`operations
      ensures var e := old(operations)[i];
              operations == old(operations)[i := e.(operation := EnhancedOperation(e.operation, r))]
      ensures enhanced <==> operations != old(operations)
    {
      hide AddSections, Sections, OptionalAuth, DefaultHeaders, Contains;
      ghost var e := operations[i];
      SectionsAreNew(TextOf(e.operation.description), r);
      enhanced := AppendSections(i, Sections(r));
      var op := operations[i].operation;
      if op.security.None? {
        if r.authRequired || (r.authMethods != [] && OptionalAuth(r)) {
          op := op.(security := Some(BOTH_SCHEMES));
          enhanced := true;
        }
      }
      if op.limited.Some? {
        var headers := if op.limited.value.Some? then op.limited.value.value else map[];
        var defaults := DefaultHeaders(r);
        if !(defaults.Keys <= headers.Keys) {
          enhanced := true;
        }
        FilledHeaders(defaults, headers);
        op := op.(limited := Some(Some(defaults + headers)));
        HeadersChanged(defaults, op.limited, e.operation.limited, r);
      }
      operations := operations[i := operations[i].(operation := op)];
      assert operations[i].operation == EnhancedOperation(e.operation, r);
      assert operations == old(operations)[i := e.(operation := op)];
      assert enhanced <==> op != e.operation;
      assert op != e.operation <==> operations[i] != old(operations)[i];
    }

    /** `enhance_security_schemes`, for one of its two schemes */
    method EnhanceScheme(name: string, standard: Scheme) returns (enhanced: bool)
      requires schemes.Some? && standard.description.Some? && |standard.description.value| >= 50
      modifies this`schemes
      ensures schemes == Some(EnhancedScheme(old(schemes).value, name, standard))
      ensures enhanced <==> schemes != old(schemes)
    {
      enhanced := false;
      var all := schemes.value;
      if name !in all {
        schemes := Some(all[name := standard]);
        enhanced := true;
      } else if all[name].description.None? || |all[name].description.value| < 50 {
        schemes := Some(all[name := all[name].(description := standard.description)]);
        assert schemes.value[name] != all[name];
        enhanced := true;
      }
    }

    /** `enhance_openapi_spec`, between reading the file and writing it back: the
        document becomes the enhanced one, and the answer says whether it changed,
        which is what decides whether the file is written. */
    method Enhance(table: map<string, Requirement>) returns (enhanced: bool)
      modifies this
      ensures Contents() == EnhancedSpec(old(Contents()), table)
      ensures enhanced <==> Contents() != old(Contents())
    {
      hide EnhancedOperation, EnhancedScheme, Handled;
      if !isOpenApi {
        return false;
      }
      enhanced := false;
      for i := 0 to |operations|
        invariant isOpenApi && schemes == old(schemes) && |operations| == |old(operations)|
        invariant forall j :: 0 <= j < i ==> operations[j] == EnhancedEntry(old(operations)[j], table)
        invariant forall j :: i <= j < |operations| ==> operations[j] == old(operations)[j]
        invariant enhanced <==> operations != old(operations)
      {
        ghost var before := operations;
        if Handled(operations[i].httpMethod) && operations[i].path in table {
          var changed := EnhanceOperation(i, table[operations[i].path]);
          enhanced := enhanced || changed;
          assert changed <==> operations[i] != old(operations)[i];
          assert forall j :: 0 <= j < |operations| && j != i ==> operations[j] == before[j];
          if !changed && before != old(operations) {
            assert operations == before;
          }
          if changed {
            assert operations != old(operations);
          }
        }
      }
      SchemesAreLong();
      if schemes.None? {
        schemes := Some(map[]);
      }
      ghost var start := schemes;
      var bearer := EnhanceScheme("BearerAuth", BEARER);
      var apiKey := EnhanceScheme("ApiKeyAuth", API_KEY);
      SchemesChange(start.value);
      enhanced := enhanced || bearer || apiKey;
    }
  }

  lemma SectionsAreNew(text: string, r: Requirement)
    ensures text == "" ==> AddSections(text, Sections(r)) != text
  {
    AddSectionsLaws(text, Sections(r));
    var s := AuthSection(r);
    assert Sections(r)[0] == s && s != "";
    if text == "" {
      assert s in Sections(r) && !Contains(text, s);
    }
  }

  /** Existing headers win over the defaults, and the result is new exactly when a
      default was missing. */
  lemma FilledHeaders(defaults: map<string, Header>, headers: map<string, Header>)
    ensures defaults + headers == headers <==> defaults.Keys <= headers.Keys
  {
    if defaults + headers == headers {
      assert (defaults + headers).Keys == defaults.Keys + headers.Keys;
    }
  }

  lemma HeadersChanged(defaults: map<string, Header>, now: Option<Option<map<string, Header>>>,
                       before: Option<Option<map<string, Header>>>, r: Requirement)
    requires defaults == DefaultHeaders(r) && before.Some?
    requires var headers := if before.value.Some? then before.value.value else map[];
             now == Some(Some(defaults + headers))
    ensures now != before <==> !(defaults.Keys <= (if before.value.Some? then before.value.value else map[]).Keys)
  {
    var headers := if before.value.Some? then before.value.value else map[];
    FilledHeaders(defaults, headers);
    if before.value.None? {
      assert "Retry-After" in defaults;
    }
  }

  lemma SchemesAreLong()
    ensures BEARER.description.Some? && |BEARER.description.value| >= 50
    ensures API_KEY.description.Some? && |API_KEY.description.value| >= 50
  {
  }

  /** A scheme whose description is long enough to be left alone. */
  predicate Documented(s: Scheme) {
    s.description.Some? && |s.description.value| >= 50
  }

  /** One pass documents both standard schemes and changes no other scheme, nor one
      already documented, nor the kind of any; a second pass changes nothing. */
  lemma SchemesSettle(schemes: map<string, Scheme>)
    ensures var after := EnhancedSchemes(schemes);
            && EnhancedSchemes(after) == after
            && after.Keys == schemes.Keys + {"BearerAuth", "ApiKeyAuth"}
            && Documented(after["BearerAuth"]) && Documented(after["ApiKeyAuth"])
            && forall name :: name in schemes ==>
                 && after[name].kind == schemes[name].kind
                 && (Documented(schemes[name]) || (name != "BearerAuth" && name != "ApiKeyAuth") ==>
                       after[name] == schemes[name])
  {
    hide EnhancedScheme;
    SchemesAreLong();
    assert "BearerAuth"[0] != "ApiKeyAuth"[0];
    var once := EnhancedScheme(schemes, "BearerAuth", BEARER);
    var after := EnhancedScheme(once, "ApiKeyAuth", API_KEY);
    SchemeSettles(schemes, "BearerAuth", BEARER);
    SchemeSettles(once, "ApiKeyAuth", API_KEY);
    SchemeSettles(after, "BearerAuth", BEARER);
    SchemeSettles(after, "ApiKeyAuth", API_KEY);
  }

  lemma SchemeSettles(schemes: map<string, Scheme>, name: string, standard: Scheme)
    requires Documented(standard)
    ensures var after := EnhancedScheme(schemes, name, standard);
            && after.Keys == schemes.Keys + {name} && Documented(after[name])
            && (name in schemes && Documented(schemes[name]) ==> after == schemes)
            && forall other :: other in schemes ==>
                 after[other].kind == schemes[other].kind && (other != name ==> after[other] == schemes[other])
  {
  }

  lemma SchemesChange(schemes: map<string, Scheme>)
    ensures var once := EnhancedScheme(schemes, "BearerAuth", BEARER);
            once != schemes || EnhancedSchemes(schemes) != once <==> EnhancedSchemes(schemes) != schemes
    ensures schemes == map[] ==> EnhancedScheme(schemes, "BearerAuth", BEARER) != schemes
  {
    SchemesAreLong();
    var once := EnhancedScheme(schemes, "BearerAuth", BEARER);
    assert "BearerAuth" != "ApiKeyAuth";
    if once != schemes {
      assert EnhancedSchemes(schemes)["BearerAuth"] == once["BearerAuth"];
      if "BearerAuth" in schemes {
        assert once["BearerAuth"] != schemes["BearerAuth"];
      }
    }
  }

  /** An enhanced operation says everything that is required of it and keeps all
      that it said: the text as a prefix, its security, and its own headers. */
  lemma OperationSettles(op: Operation, r: Requirement)
    ensures var after := EnhancedOperation(op, r);
            && EnhancedOperation(after, r) == after
            && after.description.Some? && TextOf(op.description) <= after.description.value
            && (forall s :: s in Sections(r) ==> Contains(after.description.value, s))
            && (op.security.Some? ==> after.security == op.security)
            && (r.authRequired ==> after.security.Some?)
            && (op.limited.None? ==> after.limited.None?)
            && (op.limited.Some? ==> after.limited.Some? && after.limited.value.Some?
                                     && DefaultHeaders(r).Keys <= after.limited.value.value.Keys)
            && (op.limited.Some? && op.limited.value.Some? ==>
                  && after.limited.value.value.Keys == DefaultHeaders(r).Keys + op.limited.value.value.Keys
                  && forall h :: h in op.limited.value.value ==>
                       after.limited.value.value[h] == op.limited.value.value[h])
  {
    hide Sections, AddSections, DefaultHeaders, OptionalAuth;
    AddSectionsLaws(TextOf(op.description), Sections(r));
    if op.limited.Some? {
      var headers := if op.limited.value.Some? then op.limited.value.value else map[];
      FilledHeaders(DefaultHeaders(r), DefaultHeaders(r) + headers);
    }
  }

  /** Enhancing any document twice equals enhancing it once, so that the second
      pass reports no change and leaves the file alone; and every description
      that was there is a prefix of the enhanced one. */
  lemma EnhanceTwice(spec: Spec, table: map<string, Requirement>)
    ensures var once := EnhancedSpec(spec, table);
            && EnhancedSpec(once, table) == once
            && |once.operations| == |spec.operations|
            && forall i :: 0 <= i < |spec.operations| ==>
                 && once.operations[i].path == spec.operations[i].path
                 && once.operations[i].httpMethod == spec.operations[i].httpMethod
                 && TextOf(spec.operations[i].operation.description) <= TextOf(once.operations[i].operation.description)
  {
    hide EnhancedOperation, EnhancedSchemes, Handled;
    var once := EnhancedSpec(spec, table);
    if spec.isOpenApi {
      SchemesSettle(if spec.schemes.Some? then spec.schemes.value else map[]);
      forall i | 0 <= i < |spec.operations|
        ensures EnhancedEntry(once.operations[i], table) == once.operations[i]
        ensures TextOf(spec.operations[i].operation.description) <= TextOf(once.operations[i].operation.description)
      {
        var e := spec.operations[i];
        if e.path in table {
          OperationSettles(e.operation, table[e.path]);
        }
      }
    }
  }

  /** Which entries are touched, and how: those of the five methods whose path is in
      the table get every section, and, when they had no security, exactly the two
      documented schemes if authentication is required or offered. */
  lemma EntryExactly(spec: Spec, table: map<string, Requirement>, i: nat)
    requires spec.isOpenApi && i < |spec.operations|
    ensures var e := spec.operations[i]; var after := EnhancedSpec(spec, table).operations[i];
            && after.path == e.path && after.httpMethod == e.httpMethod
            && (e.httpMethod !in {"get", "post", "put", "patch", "delete"} || e.path !in table ==> after == e)
            && (e.httpMethod in {"get", "post", "put", "patch", "delete"} && e.path in table ==>
                  var r := table[e.path];
                  && after.operation == EnhancedOperation(e.operation, r)
                  && (forall s :: s in Sections(r) ==> Contains(TextOf(after.operation.description), s))
                  && (e.operation.security.Some? ==> after.operation.security == e.operation.security)
                  && (e.operation.security.None? ==>
                        after.operation.security ==
                        if r.authRequired || OptionalAuth(r) then Some(["BearerAuth", "ApiKeyAuth"]) else None))
  {
    hide AddSections, Sections, OptionalAuth, DefaultHeaders;
    var e := spec.operations[i];
    if e.path in table {
      var r := table[e.path];
      OperationSettles(e.operation, r);
      NoMethodsNoOption(r);
    }
  }

  lemma NoMethodsNoOption(r: Requirement)
    ensures r.authMethods == [] ==> !OptionalAuth(r)
  {
  }

  /** A document that says nothing of `openapi` stays as it is; any other gets both
      schemes, of their kinds. */
  lemma DocumentExactly(spec: Spec, table: map<string, Requirement>)
    ensures !spec.isOpenApi ==> EnhancedSpec(spec, table) == spec
    ensures spec.isOpenApi && (spec.schemes.None? || spec.schemes == Some(map[])) ==>
              var schemes := EnhancedSpec(spec, table).schemes;
              && schemes.Some? && schemes.value.Keys == {"BearerAuth", "ApiKeyAuth"}
              && schemes.value["BearerAuth"].kind == "http" && schemes.value["ApiKeyAuth"].kind == "apiKey"
  {
    hide EnhancedEntry;
    assert "BearerAuth"[0] == 'B' && "ApiKeyAuth"[0] == 'A';
  }

  /** The header is there, with the example unless there was one before. */
  predicate Filled(before: map<string, Header>, now: map<string, Header>, name: string, example: int) {
    name in now && (name !in before ==> now[name].example == example)
  }

  function HeadersOf(op: Operation): map<string, Header> {
    match op.limited
    case Some(Some(headers)) => headers
    case _ => map[]
  }

  /** The rate headers of a limited response: names, and the examples for a limit
      and for none; headers that were there stay. */
  lemma HeadersExactly(op: Operation, r: Requirement)
    requires op.limited.Some?
    ensures var before := HeadersOf(op); var now := HeadersOf(EnhancedOperation(op, r));
            && now.Keys == before.Keys + {"X-RateLimit-Limit", "X-RateLimit-Remaining", "X-RateLimit-Reset",
                                          "Retry-After"}
            && (forall h :: h in before ==> now[h] == before[h])
            && Filled(before, now, "X-RateLimit-Limit", if r.rate.Some? then r.rate.value.sustained else 20)
            && Filled(before, now, "X-RateLimit-Remaining", 0)
            && Filled(before, now, "X-RateLimit-Reset", 1736868000)
            && Filled(before, now, "Retry-After", 30)
  {
    hide AddSections, Sections, OptionalAuth;
    HeaderNamesDiffer();
  }

  lemma HeaderNamesDiffer()
    ensures |"X-RateLimit-Limit"| == 17 && |"X-RateLimit-Remaining"| == 21 && |"Retry-After"| == 11
    ensures "X-RateLimit-Limit"[12] == 'L' && "X-RateLimit-Reset"[12] == 'R'
  {
  }

  /** The sections in full, for an entry with everything and for a public one. */
  lemma SectionsAtInputs()
    ensures Sections(Requirement(true, ["JWT", "API Key"], ["DATA_PROVIDER", "TENANT_ADMIN"], ["s:read"],
                                 Some(RateLimit(10, 30, 1000, 60, "per user")))) ==
            ["\n\n**Authentication**: " + "Required (JWT, API Key)",
             "\n\n**Authorization**: " + ("Required role(s): " + "DATA_PROVIDER, TENANT_ADMIN" + "; "
                                        + "Required scope(s): s:read"),
             "\n\n**Rate Limiting**: " + "30 requests per " + "60 seconds per user" + " (burst: 10 per 10 seconds)"
             + " (daily: 1000 per day)",
             VALIDATION]
    ensures Sections(Requirement(false, [], [], [], None)) ==
            ["\n\n**Authentication**: " + "Not required (public endpoint)", VALIDATION]
    ensures VALIDATION == "\n\n**Input Validation**: All request fields validated "
                          + "(types, formats, lengths, patterns, enums). See request schema for details."
  {
    hide AuthSection, AuthzSection, RateSection;
    var r := Requirement(true, ["JWT", "API Key"], ["DATA_PROVIDER", "TENANT_ADMIN"], ["s:read"],
                         Some(RateLimit(10, 30, 1000, 60, "per user")));
    AuthAtInput(r);
    AuthzAtInput(r);
    RateAtInput();
    PublicAtInput(Requirement(false, [], [], [], None));
  }

  lemma JoinPair(a: string, b: string, sep: string)
    ensures Join([a, b], sep) == a + sep + b
  {
    assert [a, b][1..] == [b];
  }

  lemma PublicAtInput(r: Requirement)
    requires !r.authRequired
    ensures AuthSection(r) == "\n\n**Authentication**: " + "Not required (public endpoint)"
  {
  }

  lemma AuthAtInput(r: Requirement)
    requires r.authRequired && r.authMethods == ["JWT", "API Key"]
    ensures AuthSection(r) == "\n\n**Authentication**: " + "Required (JWT, API Key)"
  {
    JoinPair("JWT", "API Key", ", ");
    assert "JWT" + ", " + "API Key" == "JWT, API Key";
    assert "Required (" + "JWT, API Key" + ")" == "Required (JWT, API Key)";
  }

  lemma AuthzAtInput(r: Requirement)
    requires r.roles == ["DATA_PROVIDER", "TENANT_ADMIN"] && r.scopes == ["s:read"]
    ensures AuthzSection(r) == "\n\n**Authorization**: " + ("Required role(s): " + "DATA_PROVIDER, TENANT_ADMIN" + "; "
                               + "Required scope(s): s:read")
  {
    hide Join;
    JoinPair("DATA_PROVIDER", "TENANT_ADMIN", ", ");
    AuthzTexts();
    JoinOne("s:read", ", ");
    var a, b := "Required role(s): " + "DATA_PROVIDER, TENANT_ADMIN", "Required scope(s): s:read";
    assert [a] + [b] == [a, b];
    JoinPair(a, b, "; ");
  }

  lemma AuthzTexts()
    ensures "DATA_PROVIDER" + ", " + "TENANT_ADMIN" == "DATA_PROVIDER, TENANT_ADMIN"
    ensures "Required scope(s): " + "s:read" == "Required scope(s): s:read"
  {
  }

  lemma Numbers()
    ensures Decimal(10) == "10" && Decimal(30) == "30" && Decimal(60) == "60" && Decimal(1000) == "1000"
  {
    assert Decimal(1) == "1" && Decimal(3) == "3" && Decimal(6) == "6";
    assert Decimal(100) == Decimal(10) + "0";
  }

  lemma RateAtInput()
    ensures RateSection(RateLimit(10, 30, 1000, 60, "per user")) ==
            "\n\n**Rate Limiting**: " + "30 requests per " + "60 seconds per user" + " (burst: 10 per 10 seconds)"
            + " (daily: 1000 per day)"
  {
    hide Decimal;
    Numbers();
    RateTexts();
    var h := "\n\n**Rate Limiting**: ";
    assert h + "30" + " requests per " + "60" + " seconds " + "per user"
        == h + "30 requests per " + "60 seconds per user";
  }

  /** A burst without a daily limit, and a daily limit without a burst. */
  lemma OneLimitAtInputs()
    ensures RateSection(RateLimit(10, 30, 0, 60, "per user")) ==
            "\n\n**Rate Limiting**: " + "30 requests per " + "60 seconds per user" + " (burst: 10 per 10 seconds)"
    ensures RateSection(RateLimit(0, 30, 1000, 60, "per user")) ==
            "\n\n**Rate Limiting**: " + "30 requests per " + "60 seconds per user" + " (daily: 1000 per day)"
  {
    hide Decimal;
    Numbers();
    RateTexts();
    var h := "\n\n**Rate Limiting**: ";
    assert h + "30" + " requests per " + "60" + " seconds " + "per user"
        == h + "30 requests per " + "60 seconds per user";
  }

  lemma RateTexts()
    ensures "30" + " requests per " == "30 requests per " && "60" + " seconds " + "per user" == "60 seconds per user"
    ensures " (burst: " + "10" + " per 10 seconds)" == " (burst: 10 per 10 seconds)"
    ensures " (daily: " + "1000" + " per day)" == " (daily: 1000 per day)"
  {
  }

  /** Offered but not required: a method that says so, in any case of letters. */
  lemma OptionalAtInputs(roles: seq<string>, scopes: seq<string>, rate: Option<RateLimit>)
    ensures OptionalAuth(Requirement(false, ["JWT (Optional)"], roles, scopes, rate))
    ensures !OptionalAuth(Requirement(false, ["JWT", "API Key"], roles, scopes, rate))
  {
    hide LowerCase, Contains;
    OptionalText();
    var offered := Requirement(false, ["JWT (Optional)"], roles, scopes, rate);
    assert Contains(LowerCase(offered.authMethods[0]), "optional");
    ContainsNeeds(LowerCase("JWT"), "optional");
    ContainsNeeds(LowerCase("API Key"), "optional");
  }

  lemma OptionalText()
    ensures Contains(LowerCase("JWT (Optional)"), "optional")
    ensures 'o' !in LowerCase("JWT") && 'o' !in LowerCase("API Key") && "optional"[0] == 'o'
  {
    assert LowerCase("JWT (Optional)") == "jwt (optional)";
    assert "jwt (optional)"[5..13] == "optional";
    assert OccursAt("jwt (optional)", "optional", 5);
    assert LowerCase("JWT") == "jwt" && LowerCase("API Key") == "api key";
  }
}
