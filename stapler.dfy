/** The provenance stapler of xpii-chain/core/stapler.py: `inject_metadata`
    edits the unpacked package's core properties and settings parts, and
    `verify` reads the provenance back out of a packed package.

    A package is a map from part path to part. A part that lxml parses is an
    abstract XML tree (tag in `{namespace}local` form, attributes, text,
    children); any other content is raw bytes, and at one of the three paths
    the stapler parses, raw bytes stand for content that raises
    `XMLSyntaxError`. SHA-256 is a function value; the clock reading that
    replaces an empty session id is a parameter. */
module Stapler {
  import opened Wrappers
  import opened Text

  // ---------------------------------------------------------------------
  // Abstract XML and packages
  // ---------------------------------------------------------------------

  const DC_CREATOR := "{http://purl.org/dc/elements/1.1/}creator"
  const DC_DESCRIPTION := "{http://purl.org/dc/elements/1.1/}description"
  const W_RSIDS := "{http://schemas.openxmlformats.org/wordprocessingml/2006/main}rsids"
  const W_RSID := "{http://schemas.openxmlformats.org/wordprocessingml/2006/main}rsid"
  const W_VAL := "{http://schemas.openxmlformats.org/wordprocessingml/2006/main}val"

  const CORE_PATH := "docProps/core.xml"
  const SETTINGS_PATH := "word/settings.xml"
  const DOCUMENT_PATH := "word/document.xml"

  const PROVENANCE_TOKEN := "XPII-CHAIN-PROVENANCE:"
  const SHA_LABEL := "SHA-256:"
  const DEFAULT_AUTHOR := "XPII-CHAIN"

  /** The three part paths the stapler parses are distinct. */
  lemma PathsDistinct()
    ensures CORE_PATH != SETTINGS_PATH && CORE_PATH != DOCUMENT_PATH && SETTINGS_PATH != DOCUMENT_PATH
  {
    assert CORE_PATH[0] != SETTINGS_PATH[0];
    assert CORE_PATH[0] != DOCUMENT_PATH[0];
    assert SETTINGS_PATH[5] != DOCUMENT_PATH[5];
  }

  datatype Element = Element(tag: string, attrs: map<string, string>, text: Option<string>,
                             children: seq<Element>)

  type Byte = b: int | 0 <= b < 256

  datatype Part = Xml(root: Element) | Raw(bytes: seq<Byte>)

  type Package = map<string, Part>

  /** A file handed to `zipfile.ZipFile`: a readable archive or one that
      raises `BadZipFile`. */
  datatype Archive = Zip(members: Package) | Corrupt

  /** The index of the first element of `kids` with tag `tag`. */
  function FirstChild(kids: seq<Element>, tag: string): (r: Option<nat>)
    ensures r.Some? ==> r.value < |kids| && kids[r.value].tag == tag &&
                        forall j :: 0 <= j < r.value ==> kids[j].tag != tag
    ensures r.None? ==> forall j :: 0 <= j < |kids| ==> kids[j].tag != tag
  {
    if kids == [] then None
    else if kids[0].tag == tag then Some(0)
    else match FirstChild(kids[1..], tag)
      case None => None
      case Some(i) => Some(i + 1)
  }

  /** lxml's `element.find(tag)`: the first direct child with that tag. */
  function Find(e: Element, tag: string): Option<nat> {
    FirstChild(e.children, tag)
  }

  /** Children with the same tags, position by position, give the same
      `find` result. */
  lemma {:induction false} FirstChildByTags(a: seq<Element>, b: seq<Element>, tag: string)
    requires |a| == |b| && forall i :: 0 <= i < |a| ==> a[i].tag == b[i].tag
    ensures FirstChild(a, tag) == FirstChild(b, tag)
  {
    if a != [] && a[0].tag != tag {
      FirstChildByTags(a[1..], b[1..], tag);
    }
  }

  /** Appending a child does not change the result of an earlier `find`. */
  lemma {:induction false} FirstChildAppend(kids: seq<Element>, x: Element, tag: string)
    ensures FirstChild(kids + [x], tag) ==
            if FirstChild(kids, tag).Some? then FirstChild(kids, tag)
            else if x.tag == tag then Some(|kids|) else None
  {
    if kids == [] {
      assert kids + [x] == [x];
    } else if kids[0].tag != tag {
      assert (kids + [x])[1..] == kids[1..] + [x];
      FirstChildAppend(kids[1..], x, tag);
    }
  }

  /** `child.text = t` on the `i`-th child. */
  function SetText(e: Element, i: nat, t: string): (r: Element)
    requires i < |e.children|
    ensures r.tag == e.tag && r.attrs == e.attrs && r.text == e.text
    ensures |r.children| == |e.children|
    ensures r.children[i] == e.children[i].(text := Some(t))
    ensures forall j :: 0 <= j < |e.children| && j != i ==> r.children[j] == e.children[j]
    ensures Find(r, DC_CREATOR) == Find(e, DC_CREATOR)
    ensures Find(r, DC_DESCRIPTION) == Find(e, DC_DESCRIPTION)
  {
    var r := e.(children := e.children[i := e.children[i].(text := Some(t))]);
    FirstChildByTags(r.children, e.children, DC_CREATOR);
    FirstChildByTags(r.children, e.children, DC_DESCRIPTION);
    r
  }

  /** `ET.SubElement(e, tag)`: a new empty child appended last. */
  function SubElement(e: Element, tag: string): Element {
    e.(children := e.children + [Element(tag, map[], None, [])])
  }

  // ---------------------------------------------------------------------
  // Fingerprint, description and RSID
  // ---------------------------------------------------------------------

  /** An empty or missing session id is replaced by the clock reading
      (`%Y%m%d%H%M%S`). */
  function EffectiveSession(sessionId: Option<string>, clockStamp: string): (s: string)
    ensures sessionId.Some? && sessionId.value != "" ==> s == sessionId.value
    ensures sessionId.None? || sessionId.value == "" ==> s == clockStamp
  {
    if sessionId.None? || sessionId.value == "" then clockStamp else sessionId.value
  }

  /** The text hashed into the fingerprint: `author:session_id`. */
  function FingerprintInput(author: string, session: string): string {
    author + ":" + session
  }

  /** SHA-256 of `author:session_id` (not of the package bytes). */
  function Fingerprint(sha256: string -> string, author: string, session: string): string {
    sha256(FingerprintInput(author, session))
  }

  /** Two (author, session) pairs give the same hashed text only when they
      are the same pair, provided neither author holds a colon: then the
      fingerprint can differ only through the hash. */
  lemma FingerprintInputInjective(a1: string, s1: string, a2: string, s2: string)
    requires ':' !in a1 && ':' !in a2
    requires FingerprintInput(a1, s1) == FingerprintInput(a2, s2)
    ensures a1 == a2 && s1 == s2
  {
    var x := FingerprintInput(a1, s1);
    assert x[|a1|] == ':' && x[|a2|] == ':';
    if |a1| < |a2| {
      assert false;
    } else if |a2| < |a1| {
      assert false;
    }
    assert a1 == x[..|a1|] && a2 == x[..|a2|];
    assert s1 == x[|a1| + 1..] && s2 == x[|a2| + 1..];
  }

  /** The text written into `dc:description`: it starts with the
      provenance token and ends with the fingerprint. */
  function Description(session: string, fingerprint: string): (d: string)
    ensures |d| == |PROVENANCE_TOKEN| + |session| + |SHA_LABEL| + |fingerprint| + 5
    ensures d[..|PROVENANCE_TOKEN|] == PROVENANCE_TOKEN
    ensures d[|PROVENANCE_TOKEN| + 1..|PROVENANCE_TOKEN| + 1 + |session|] == session
    ensures d[|d| - |fingerprint|..] == fingerprint
  {
    PROVENANCE_TOKEN + " " + session + " | " + SHA_LABEL + " " + fingerprint
  }

  predicate IsLowerHex(c: char) { IsDigit(c) || 'a' <= c <= 'f' }
  predicate IsUpperHex(c: char) { IsDigit(c) || 'A' <= c <= 'F' }

  /** The shape of a `hexdigest()` of SHA-256. */
  predicate HexDigest(s: string) {
    |s| == 64 && forall i :: 0 <= i < |s| ==> IsLowerHex(s[i])
  }

  /** `fingerprint[:8].upper()` */
  function Rsid(fingerprint: string): (r: string)
    ensures |r| == if |fingerprint| < 8 then |fingerprint| else 8
    ensures forall i :: 0 <= i < |r| ==> r[i] == UpperChar(fingerprint[i])
  {
    Upper(Take(fingerprint, 8))
  }

  /** The RSID of a SHA-256 hex digest is always 8 upper-case hex digits,
      the first 8 of the digest. */
  lemma RsidIsUpperHex(fingerprint: string)
    requires HexDigest(fingerprint)
    ensures |Rsid(fingerprint)| == 8
    ensures forall i :: 0 <= i < 8 ==>
              IsUpperHex(Rsid(fingerprint)[i]) && LowerChar(Rsid(fingerprint)[i]) == fingerprint[i]
  {
    var r := Rsid(fingerprint);
    forall i | 0 <= i < 8
      ensures IsUpperHex(r[i]) && LowerChar(r[i]) == fingerprint[i]
    {
      assert Take(fingerprint, 8)[i] == fingerprint[i];
    }
  }

  // ---------------------------------------------------------------------
  // Edits of docProps/core.xml and word/settings.xml
  // ---------------------------------------------------------------------

  /** The core-properties edit: overwrite an existing `dc:creator` (never
      create one) and set `dc:description`, creating it last when absent.
      No other child changes. */
  function EditCore(root: Element, author: string, description: string): (r: Element)
    ensures r.tag == root.tag && r.attrs == root.attrs && r.text == root.text
    ensures Find(r, DC_CREATOR) == Find(root, DC_CREATOR)
    ensures Find(r, DC_CREATOR).Some? ==> r.children[Find(r, DC_CREATOR).value].text == Some(author)
    ensures Find(r, DC_DESCRIPTION).Some? &&
            r.children[Find(r, DC_DESCRIPTION).value].text == Some(description)
    ensures Find(root, DC_DESCRIPTION).Some? ==> Find(r, DC_DESCRIPTION) == Find(root, DC_DESCRIPTION)
    ensures |r.children| == |root.children| + (if Find(root, DC_DESCRIPTION).None? then 1 else 0)
    ensures forall j ::
              (0 <= j < |root.children| && Find(root, DC_CREATOR) != Some(j) &&
               Find(root, DC_DESCRIPTION) != Some(j)) ==> r.children[j] == root.children[j]
    ensures Find(root, DC_CREATOR).Some? ==>
              var c := Find(root, DC_CREATOR).value;
              r.children[c] == root.children[c].(text := Some(author))
    ensures Find(root, DC_DESCRIPTION).Some? ==>
              var d := Find(root, DC_DESCRIPTION).value;
              r.children[d] == root.children[d].(text := Some(description))
    ensures Find(root, DC_DESCRIPTION).None? ==>
              r.children[|root.children|] == Element(DC_DESCRIPTION, map[], Some(description), [])
  {
    var withCreator := match Find(root, DC_CREATOR)
      case Some(i) => SetText(root, i, author)
      case None => root;
    match Find(withCreator, DC_DESCRIPTION)
    case Some(i) => SetText(withCreator, i, description)
    case None =>
      var withDesc := SubElement(withCreator, DC_DESCRIPTION);
      FirstChildAppend(withCreator.children, withDesc.children[|withCreator.children|], DC_DESCRIPTION);
      FirstChildAppend(withCreator.children, withDesc.children[|withCreator.children|], DC_CREATOR);
      SetText(withDesc, |withCreator.children|, description)
  }

  /** Running the core edit twice with the same values changes nothing more. */
  lemma EditCoreIdempotent(root: Element, author: string, description: string)
    ensures EditCore(EditCore(root, author, description), author, description) ==
            EditCore(root, author, description)
  {
    var r1 := EditCore(root, author, description);
    var ic := Find(r1, DC_CREATOR);
    var withCreator := if ic.Some? then SetText(r1, ic.value, author) else r1;
    assert withCreator == r1 by {
      if ic.Some? {
        SetTextSame(r1, ic.value, author);
      }
    }
    SetTextSame(r1, Find(r1, DC_DESCRIPTION).value, description);
  }

  /** Setting a child's text to the text it has changes nothing. */
  lemma SetTextSame(e: Element, i: nat, t: string)
    requires i < |e.children| && e.children[i].text == Some(t)
    ensures SetText(e, i, t) == e
  {
    assert e.children[i].(text := Some(t)) == e.children[i];
    assert e.children[i := e.children[i]] == e.children;
  }

  /** A `w:rsid` child whose `w:val` is `v`. */
  predicate IsRsidFor(e: Element, v: string) {
    e.tag == W_RSID && W_VAL in e.attrs && e.attrs[W_VAL] == v
  }

  /** The `any(...)` test of the source over `rsids.findall('w:rsid')`. */
  predicate HasRsid(rsids: Element, v: string) {
    exists j :: 0 <= j < |rsids.children| && IsRsidFor(rsids.children[j], v)
  }

  /** How many `w:rsid` children of `kids` hold `v`. */
  function CountRsid(kids: seq<Element>, v: string): (n: nat)
    ensures n <= |kids|
    ensures n > 0 <==> exists j :: 0 <= j < |kids| && IsRsidFor(kids[j], v)
  {
    if kids == [] then 0
    else
      var init := kids[..|kids| - 1];
      assert forall j :: 0 <= j < |init| ==> init[j] == kids[j];
      CountRsid(init, v) + (if IsRsidFor(kids[|kids| - 1], v) then 1 else 0)
  }

  /** The number of RSID elements for `v` in the first `w:rsids` of the
      settings root (0 when there is none). */
  function RsidCount(root: Element, v: string): nat {
    match Find(root, W_RSIDS)
    case None => 0
    case Some(k) => CountRsid(root.children[k].children, v)
  }

  /** `ET.SubElement(rsids, "w:rsid")` with `w:val` set to `v`. */
  function NewRsid(v: string): Element {
    Element(W_RSID, map[W_VAL := v], None, [])
  }

  /** The settings edit: find or create `w:rsids`, then append a `w:rsid`
      holding `v` unless one already does. Afterwards exactly one holds `v`
      if none did, and the count is unchanged otherwise. */
  function EditSettings(root: Element, v: string): (r: Element)
    ensures r.tag == root.tag && r.attrs == root.attrs && r.text == root.text
    ensures Find(r, W_RSIDS).Some? && HasRsid(r.children[Find(r, W_RSIDS).value], v)
    ensures Find(root, W_RSIDS).Some? ==> Find(r, W_RSIDS) == Find(root, W_RSIDS)
    ensures RsidCount(r, v) == if RsidCount(root, v) == 0 then 1 else RsidCount(root, v)
    ensures |r.children| == |root.children| + (if Find(root, W_RSIDS).None? then 1 else 0)
    ensures forall j :: 0 <= j < |root.children| && Find(root, W_RSIDS) != Some(j) ==>
                        r.children[j] == root.children[j]
    ensures Find(root, W_RSIDS).Some? ==>
              var k := Find(root, W_RSIDS).value;
              if HasRsid(root.children[k], v) then r == root
              else r.children[k] == root.children[k].(children := root.children[k].children + [NewRsid(v)])
    ensures Find(root, W_RSIDS).None? ==>
              r.children[|root.children|] == Element(W_RSIDS, map[], None, [NewRsid(v)])
  {
    var withRsids := if Find(root, W_RSIDS).Some? then root else SubElement(root, W_RSIDS);
    FirstChildAppend(root.children, Element(W_RSIDS, map[], None, []), W_RSIDS);
    var k := Find(withRsids, W_RSIDS).value;
    var rsids := withRsids.children[k];
    if HasRsid(rsids, v) then withRsids
    else
      var rsid := NewRsid(v);
      var rsids' := rsids.(children := rsids.children + [rsid]);
      assert rsids'.children[..|rsids.children|] == rsids.children;
      assert IsRsidFor(rsids'.children[|rsids.children|], v);
      var r := withRsids.(children := withRsids.children[k := rsids']);
      FirstChildByTags(r.children, withRsids.children, W_RSIDS);
      r
  }

  /** A second settings edit with the same RSID changes nothing. */
  lemma EditSettingsIdempotent(root: Element, v: string)
    ensures EditSettings(EditSettings(root, v), v) == EditSettings(root, v)
  {
  }

  // ---------------------------------------------------------------------
  // inject_metadata
  // ---------------------------------------------------------------------

  /** The workspace after `inject_metadata` and how the call ended: with the
      fingerprint, or with `XMLSyntaxError` on the named part, in which case
      the parts edited before it are already rewritten. */
  datatype Injection = Injection(workspace: Package, result: Result<string, string>)

  /** The edit `inject_metadata` makes to one parsed part. */
  datatype PartEdit =
    | SetProvenance(author: string, description: string)  // docProps/core.xml
    | AddRsid(rsid: string)                                // word/settings.xml
    | Reserialise                                          // word/document.xml

  function Apply(edit: PartEdit, root: Element): Element {
    match edit
    case SetProvenance(author, description) => EditCore(root, author, description)
    case AddRsid(rsid) => EditSettings(root, rsid)
    case Reserialise => root
  }

  /** One step of `inject_metadata`: a missing part is skipped, an
      unparsable one raises, and a parsed one is edited and written back.
      No other part changes. */
  function EditPart(ws: Package, path: string, edit: PartEdit): (r: Result<Package, string>)
    ensures r.Failure? <==> path in ws && ws[path].Raw?
    ensures r.Failure? ==> r.error == path
    ensures r.Success? ==> r.value.Keys == ws.Keys
    ensures r.Success? ==> forall p :: p in ws && p != path ==> r.value[p] == ws[p]
    ensures r.Success? && path in ws ==> r.value[path] == Xml(Apply(edit, ws[path].root))
  {
    if path !in ws then Success(ws)
    else match ws[path]
      case Raw(_) => Failure(path)
      case Xml(root) => Success(ws[path := Xml(Apply(edit, root))])
  }

  /** The three part edits of `inject_metadata`, in source order, for the
      effective session id and the fingerprint. */
  function Inject(ws: Package, author: string, session: string, fingerprint: string): (o: Injection)
    ensures o.workspace.Keys == ws.Keys
    ensures forall p :: p in ws && p != CORE_PATH && p != SETTINGS_PATH ==> o.workspace[p] == ws[p]
    ensures o.result.Success? <==>
            (CORE_PATH in ws ==> ws[CORE_PATH].Xml?) &&
            (SETTINGS_PATH in ws ==> ws[SETTINGS_PATH].Xml?) &&
            (DOCUMENT_PATH in ws ==> ws[DOCUMENT_PATH].Xml?)
    ensures o.result.Success? ==> o.result.value == fingerprint
    ensures CORE_PATH in ws && ws[CORE_PATH].Xml? ==>
            o.workspace[CORE_PATH] == Xml(EditCore(ws[CORE_PATH].root, author,
                                                   Description(session, fingerprint)))
    ensures o.result.Success? && SETTINGS_PATH in ws ==>
            o.workspace[SETTINGS_PATH] == Xml(EditSettings(ws[SETTINGS_PATH].root, Rsid(fingerprint)))
  {
    PathsDistinct();
    match EditPart(ws, CORE_PATH, SetProvenance(author, Description(session, fingerprint)))
    case Failure(p) => Injection(ws, Failure(p))
    case Success(ws1) =>
      match EditPart(ws1, SETTINGS_PATH, AddRsid(Rsid(fingerprint)))
      case Failure(p) => Injection(ws1, Failure(p))
      case Success(ws2) =>
        match EditPart(ws2, DOCUMENT_PATH, Reserialise)
        case Failure(p) => Injection(ws2, Failure(p))
        case Success(ws3) => Injection(ws3, Success(fingerprint))
  }

  /** Injecting twice with the same author and session gives the same
      workspace and result as injecting once, whether or not the first run
      succeeded: in particular a retry never adds a second RSID element. */
  lemma InjectIdempotent(ws: Package, author: string, session: string, fingerprint: string)
    ensures var once := Inject(ws, author, session, fingerprint).workspace;
            Inject(once, author, session, fingerprint) == Inject(ws, author, session, fingerprint)
  {
    if CORE_PATH in ws && ws[CORE_PATH].Raw? {
      InjectStopsAtFirstFailure(ws, author, session, fingerprint);
    } else if SETTINGS_PATH in ws && ws[SETTINGS_PATH].Raw? {
      RetryAfterSettingsFailure(ws, author, session, fingerprint);
    } else if DOCUMENT_PATH in ws && ws[DOCUMENT_PATH].Raw? {
      RetryAfterDocumentFailure(ws, author, session, fingerprint);
    } else {
      RetryAfterSuccess(ws, author, session, fingerprint);
    }
  }

  /** The core edit of a first run is a fixed point of the second. */
  lemma CoreStepFixed(ws: Package, author: string, session: string, fingerprint: string)
    requires CORE_PATH in ws ==> ws[CORE_PATH].Xml?
    ensures var desc := Description(session, fingerprint);
            var once := Inject(ws, author, session, fingerprint).workspace;
            EditPart(once, CORE_PATH, SetProvenance(author, desc)) == Success(once)
  {
    var desc := Description(session, fingerprint);
    if CORE_PATH in ws {
      EditCoreIdempotent(ws[CORE_PATH].root, author, desc);
    }
    EditPartFixed(Inject(ws, author, session, fingerprint).workspace, CORE_PATH, SetProvenance(author, desc));
  }

  /** A retry after settings.xml failed to parse fails there again, with
      the core edit already in place. */
  lemma RetryAfterSettingsFailure(ws: Package, author: string, session: string, fingerprint: string)
    requires CORE_PATH in ws ==> ws[CORE_PATH].Xml?
    requires SETTINGS_PATH in ws && ws[SETTINGS_PATH].Raw?
    ensures var once := Inject(ws, author, session, fingerprint).workspace;
            Inject(once, author, session, fingerprint) == Inject(ws, author, session, fingerprint)
  {
    PathsDistinct();
    CoreStepFixed(ws, author, session, fingerprint);
  }

  /** A retry after document.xml failed to parse finds both edits already
      in place and fails at the document again. */
  lemma RetryAfterDocumentFailure(ws: Package, author: string, session: string, fingerprint: string)
    requires CORE_PATH in ws ==> ws[CORE_PATH].Xml?
    requires SETTINGS_PATH in ws ==> ws[SETTINGS_PATH].Xml?
    requires DOCUMENT_PATH in ws && ws[DOCUMENT_PATH].Raw?
    ensures var once := Inject(ws, author, session, fingerprint).workspace;
            Inject(once, author, session, fingerprint) == Inject(ws, author, session, fingerprint)
  {
    var ws2 := BothEditsFixed(ws, author, session, fingerprint);
    assert EditPart(ws2, DOCUMENT_PATH, Reserialise) == Failure(DOCUMENT_PATH);
  }

  /** A retry after a successful run changes nothing more. */
  lemma RetryAfterSuccess(ws: Package, author: string, session: string, fingerprint: string)
    requires CORE_PATH in ws ==> ws[CORE_PATH].Xml?
    requires SETTINGS_PATH in ws ==> ws[SETTINGS_PATH].Xml?
    requires DOCUMENT_PATH in ws ==> ws[DOCUMENT_PATH].Xml?
    ensures var once := Inject(ws, author, session, fingerprint).workspace;
            Inject(once, author, session, fingerprint) == Inject(ws, author, session, fingerprint)
  {
    var ws2 := BothEditsFixed(ws, author, session, fingerprint);
    var ws3 := EditPart(ws2, DOCUMENT_PATH, Reserialise).value;
    EditPartFixed(ws3, DOCUMENT_PATH, Reserialise);
    assert ws3 == ws2 by { EditPartFixed(ws2, DOCUMENT_PATH, Reserialise); }
  }

  /** When core.xml and settings.xml both parse, the workspace after the
      first two steps is left unchanged by those two steps run again. */
  lemma BothEditsFixed(ws: Package, author: string, session: string, fingerprint: string)
    returns (ws2: Package)
    requires CORE_PATH in ws ==> ws[CORE_PATH].Xml?
    requires SETTINGS_PATH in ws ==> ws[SETTINGS_PATH].Xml?
    ensures var desc := Description(session, fingerprint);
            var ws1 := EditPart(ws, CORE_PATH, SetProvenance(author, desc));
            ws1.Success? && EditPart(ws1.value, SETTINGS_PATH, AddRsid(Rsid(fingerprint))) == Success(ws2)
    ensures ws2.Keys == ws.Keys && (DOCUMENT_PATH in ws ==> ws2[DOCUMENT_PATH] == ws[DOCUMENT_PATH])
    ensures EditPart(ws2, CORE_PATH, SetProvenance(author, Description(session, fingerprint))) == Success(ws2)
    ensures EditPart(ws2, SETTINGS_PATH, AddRsid(Rsid(fingerprint))) == Success(ws2)
  {
    PathsDistinct();
    var desc := Description(session, fingerprint);
    var ws1 := EditPart(ws, CORE_PATH, SetProvenance(author, desc)).value;
    ws2 := EditPart(ws1, SETTINGS_PATH, AddRsid(Rsid(fingerprint))).value;
    if CORE_PATH in ws {
      EditCoreIdempotent(ws[CORE_PATH].root, author, desc);
      assert ws2[CORE_PATH] == ws1[CORE_PATH];
    }
    EditPartFixed(ws2, CORE_PATH, SetProvenance(author, desc));
    if SETTINGS_PATH in ws {
      EditSettingsIdempotent(ws[SETTINGS_PATH].root, Rsid(fingerprint));
    }
    EditPartFixed(ws2, SETTINGS_PATH, AddRsid(Rsid(fingerprint)));
  }

  /** `inject_metadata` stops at the first part that does not parse and
      names it: an unparsable core part leaves the workspace untouched, an
      unparsable settings part leaves settings as they were, and an
      unparsable document part comes after both edits were written. */
  lemma InjectStopsAtFirstFailure(ws: Package, author: string, session: string, fingerprint: string)
    ensures var o := Inject(ws, author, session, fingerprint);
            CORE_PATH in ws && ws[CORE_PATH].Raw? ==> o == Injection(ws, Failure(CORE_PATH))
    ensures var o := Inject(ws, author, session, fingerprint);
            (CORE_PATH in ws ==> ws[CORE_PATH].Xml?) && SETTINGS_PATH in ws && ws[SETTINGS_PATH].Raw? ==>
              o.result == Failure(SETTINGS_PATH) && o.workspace[SETTINGS_PATH] == ws[SETTINGS_PATH]
    ensures var o := Inject(ws, author, session, fingerprint);
            (CORE_PATH in ws ==> ws[CORE_PATH].Xml?) && (SETTINGS_PATH in ws ==> ws[SETTINGS_PATH].Xml?) &&
            DOCUMENT_PATH in ws && ws[DOCUMENT_PATH].Raw? ==>
              o.result == Failure(DOCUMENT_PATH) &&
              (SETTINGS_PATH in ws ==>
                 o.workspace[SETTINGS_PATH] == Xml(EditSettings(ws[SETTINGS_PATH].root, Rsid(fingerprint))))
  {
    PathsDistinct();
  }

  /** A step whose edit leaves the parsed part as it is changes nothing. */
  lemma EditPartFixed(ws: Package, path: string, edit: PartEdit)
    requires path in ws ==> ws[path].Xml? && Apply(edit, ws[path].root) == ws[path].root
    ensures EditPart(ws, path, edit) == Success(ws)
  {
    if path in ws {
      assert ws[path := Xml(ws[path].root)] == ws;
    }
  }

  // ---------------------------------------------------------------------
  // verify
  // ---------------------------------------------------------------------

  datatype Status = Unverified | NoMetadata | NoProvenance | Verified | Error(cause: string)

  /** The dict `verify` returns. */
  datatype VerifyResult = VerifyResult(status: Status, sessionId: Option<string>,
                                       sha256: Option<string>, author: Option<string>)

  /** The text of the first `dc:description`, if there is one. */
  function DescriptionText(root: Element): Option<Option<string>> {
    match Find(root, DC_DESCRIPTION)
    case None => None
    case Some(i) => Some(root.children[i].text)
  }

  /** The text of the first `dc:creator`, or None when it is missing or
      has no text. */
  function CreatorText(root: Element): Option<string> {
    match Find(root, DC_CREATOR)
    case None => None
    case Some(i) => root.children[i].text
  }

  /** The description exists, has non-empty text, and that text contains
      the provenance token. */
  predicate HasProvenance(root: Element) {
    var d := DescriptionText(root);
    d.Some? && d.value.Some? && d.value.value != "" && Contains(d.value.value, PROVENANCE_TOKEN)
  }

  /** The split-and-replace parse of a provenance description: the session
      part before the first `|`, and the hash part after it when that
      segment names the SHA-256 label. */
  function ParseDescription(text: string): (r: (string, Option<string>))
    ensures Trimmed(r.0) && '|' !in r.0
    ensures r.1.Some? <==> |Split(text, '|')| > 1 && Contains(Split(text, '|')[1], SHA_LABEL)
    ensures r.1.Some? ==> Trimmed(r.1.value) && '|' !in r.1.value
  {
    var parts := Split(text, '|');
    var session := Strip(RemoveAll(parts[0], PROVENANCE_TOKEN));
    var sha := if |parts| > 1 && Contains(parts[1], SHA_LABEL)
      then Some(Strip(RemoveAll(parts[1], SHA_LABEL))) else None;
    (session, sha)
  }

  /** `verify` on an archive. */
  function Verify(a: Archive): (r: VerifyResult)
    ensures r.status != Unverified
    ensures r.status == NoMetadata <==> a.Zip? && CORE_PATH !in a.members
    ensures r.status == Verified <==>
            a.Zip? && CORE_PATH in a.members && a.members[CORE_PATH].Xml? &&
            HasProvenance(a.members[CORE_PATH].root)
    ensures r.status == NoProvenance <==>
            a.Zip? && CORE_PATH in a.members && a.members[CORE_PATH].Xml? &&
            !HasProvenance(a.members[CORE_PATH].root)
    ensures r.status == Verified || r.status == NoProvenance ==>
            r.author == CreatorText(a.members[CORE_PATH].root)
    ensures r.sessionId.Some? <==> r.status == Verified
    ensures r.sha256.Some? ==> r.status == Verified
  {
    match a
    case Corrupt => VerifyResult(Error("BadZipFile"), None, None, None)
    case Zip(members) =>
      if CORE_PATH !in members then VerifyResult(NoMetadata, None, None, None)
      else match members[CORE_PATH]
        case Raw(_) => VerifyResult(Error("XMLSyntaxError"), None, None, None)
        case Xml(root) =>
          var author := CreatorText(root);
          if HasProvenance(root) then
            var (session, sha) := ParseDescription(DescriptionText(root).value.value);
            VerifyResult(Verified, Some(session), sha, author)
          else VerifyResult(NoProvenance, None, None, author)
  }

  // ---------------------------------------------------------------------
  // Round trips
  // ---------------------------------------------------------------------

  /** The description splits at its one `|` into the session segment and
      the hash segment. */
  lemma DescriptionSplits(session: string, fingerprint: string)
    requires '|' !in session && '|' !in fingerprint
    ensures Split(Description(session, fingerprint), '|') ==
            [PROVENANCE_TOKEN + " " + session + " ", " " + SHA_LABEL + " " + fingerprint]
  {
    var head := PROVENANCE_TOKEN + " " + session + " ";
    var tail := " " + SHA_LABEL + " " + fingerprint;
    assert Description(session, fingerprint) == Join([head, tail], '|');
    assert '|' !in head && '|' !in tail;
    SplitJoin([head, tail], '|');
  }

  /** Parsing a description built by `inject_metadata` gives back the
      session id and the fingerprint, provided the session id has no `|`,
      no provenance token and no surrounding whitespace, and likewise the
      fingerprint (with the SHA-256 label in place of the token). */
  lemma DescriptionRoundTrip(session: string, fingerprint: string)
    requires '|' !in session && !Contains(session, PROVENANCE_TOKEN) && Trimmed(session)
    requires '|' !in fingerprint && !Contains(fingerprint, SHA_LABEL) && Trimmed(fingerprint)
    ensures ParseDescription(Description(session, fingerprint)) == (session, Some(fingerprint))
  {
    DescriptionSplits(session, fingerprint);
    RemoveLeadingLabel(PROVENANCE_TOKEN, session);
    RemoveInnerLabel(SHA_LABEL, fingerprint);
  }

  /** A SHA-256 hex digest has no `|`, no SHA-256 label and no whitespace
      at either end. */
  lemma HexDigestIsClean(fingerprint: string)
    requires HexDigest(fingerprint)
    ensures '|' !in fingerprint && !Contains(fingerprint, SHA_LABEL) && Trimmed(fingerprint)
  {
    ContainsFirst(fingerprint, SHA_LABEL);
  }

  /** The whole pipeline: unpacking a package whose three target parts all
      parse, injecting for `author` and `session`, packing and verifying
      yields VERIFIED with that session id and fingerprint, and reports the
      author exactly when the package already had a `dc:creator`. */
  lemma StapleThenVerify(ws: Package, author: string, session: string, fingerprint: string)
    requires CORE_PATH in ws && ws[CORE_PATH].Xml?
    requires SETTINGS_PATH in ws ==> ws[SETTINGS_PATH].Xml?
    requires DOCUMENT_PATH in ws ==> ws[DOCUMENT_PATH].Xml?
    requires '|' !in session && !Contains(session, PROVENANCE_TOKEN) && Trimmed(session)
    requires HexDigest(fingerprint)
    ensures var o := Inject(ws, author, session, fingerprint);
            o.result == Success(fingerprint) &&
            Verify(Zip(o.workspace)) ==
              VerifyResult(Verified, Some(session), Some(fingerprint),
                           if Find(ws[CORE_PATH].root, DC_CREATOR).Some? then Some(author) else None)
  {
    var desc := Description(session, fingerprint);
    var root := EditCore(ws[CORE_PATH].root, author, desc);
    ProvenanceRoundTrip(session, fingerprint);
    EditCoreReadsBack(ws[CORE_PATH].root, author, desc);
    VerifyProvenanced(Inject(ws, author, session, fingerprint).workspace, root);
  }

  /** A description built from a session id and a SHA-256 hex digest
      carries the provenance token and parses back into both. */
  lemma ProvenanceRoundTrip(session: string, fingerprint: string)
    requires '|' !in session && !Contains(session, PROVENANCE_TOKEN) && Trimmed(session)
    requires HexDigest(fingerprint)
    ensures var desc := Description(session, fingerprint);
            desc != "" && Contains(desc, PROVENANCE_TOKEN) &&
            ParseDescription(desc) == (session, Some(fingerprint))
  {
    assert StartsWith(Description(session, fingerprint), PROVENANCE_TOKEN);
    HexDigestIsClean(fingerprint);
    DescriptionRoundTrip(session, fingerprint);
  }

  /** After the core edit, the description reads back as written, and the
      creator reads back as the author exactly when a creator existed. */
  lemma EditCoreReadsBack(root: Element, author: string, description: string)
    ensures DescriptionText(EditCore(root, author, description)) == Some(Some(description))
    ensures CreatorText(EditCore(root, author, description)) ==
            if Find(root, DC_CREATOR).Some? then Some(author) else None
  {
  }

  /** `verify` on a readable archive whose core part carries provenance. */
  lemma VerifyProvenanced(m: Package, root: Element)
    requires CORE_PATH in m && m[CORE_PATH] == Xml(root) && HasProvenance(root)
    ensures var p := ParseDescription(DescriptionText(root).value.value);
            Verify(Zip(m)) == VerifyResult(Verified, Some(p.0), p.1, CreatorText(root))
  {
  }

  // ---------------------------------------------------------------------
  // The stapler object
  // ---------------------------------------------------------------------

  /** `XPIIStapler`: the unpacked working directory, modelled as the package
      it holds (empty when the directory is absent), and the last
      fingerprint. */
  class XpiiStapler {
    const sha256: string -> string
    var workspace: Package
    var provenanceFingerprint: Option<string>

    constructor (sha256: string -> string)
      ensures this.sha256 == sha256 && workspace == map[] && provenanceFingerprint == None
    {
      this.sha256 := sha256;
      workspace := map[];
      provenanceFingerprint := None;
    }

    /** Clears the working directory, then extracts every member. */
    method Unpack(archive: Archive) returns (r: Outcome<string>)
      modifies this`workspace
      ensures archive.Corrupt? ==> r == Fail("BadZipFile") && workspace == map[]
      ensures archive.Zip? ==> r == Pass && workspace == archive.members
    {
      workspace := map[];
      if archive.Corrupt? {
        return Fail("BadZipFile");
      }
      workspace := archive.members;
      return Pass;
    }

    /** Computes and stores the fingerprint, then rewrites core.xml,
        settings.xml and document.xml in that order; each missing part is
        skipped, and the first unparsable one ends the call. */
    method InjectMetadata(clockStamp: string, author: string := DEFAULT_AUTHOR,
                          sessionId: Option<string> := None)
      returns (r: Result<string, string>)
      modifies this`workspace, this`provenanceFingerprint
      ensures var session := EffectiveSession(sessionId, clockStamp);
              var fp := Fingerprint(sha256, author, session);
              provenanceFingerprint == Some(fp) &&
              Injection(workspace, r) == Inject(old(workspace), author, session, fp)
    {
      var session := EffectiveSession(sessionId, clockStamp);
      var fingerprint := Fingerprint(sha256, author, session);
      provenanceFingerprint := Some(fingerprint);

      var core := EditPart(workspace, CORE_PATH, SetProvenance(author, Description(session, fingerprint)));
      if core.Failure? {
        return Failure(core.error);
      }
      workspace := core.value;

      var settings := EditPart(workspace, SETTINGS_PATH, AddRsid(Rsid(fingerprint)));
      if settings.Failure? {
        return Failure(settings.error);
      }
      workspace := settings.value;

      var document := EditPart(workspace, DOCUMENT_PATH, Reserialise);
      if document.Failure? {
        return Failure(document.error);
      }
      workspace := document.value;
      return Success(fingerprint);
    }

    /** Writes every part of the working directory into an archive, then
        removes the directory. */
    method Pack() returns (archive: Archive)
      modifies this`workspace
      ensures archive == Zip(old(workspace)) && workspace == map[]
    {
      archive := Zip(workspace);
      workspace := map[];
    }

    /** unpack, inject_metadata with an explicit session id, pack, verify. */
    method StapleAndVerify(input: Package, author: string, session: string, clockStamp: string)
      returns (result: VerifyResult)
      requires CORE_PATH in input && input[CORE_PATH].Xml?
      requires SETTINGS_PATH in input ==> input[SETTINGS_PATH].Xml?
      requires DOCUMENT_PATH in input ==> input[DOCUMENT_PATH].Xml?
      requires session != [] && '|' !in session && !Contains(session, PROVENANCE_TOKEN) && Trimmed(session)
      requires HexDigest(Fingerprint(sha256, author, session))
      modifies this`workspace, this`provenanceFingerprint
      ensures provenanceFingerprint == Some(Fingerprint(sha256, author, session))
      ensures result == VerifyResult(Verified, Some(session), Some(Fingerprint(sha256, author, session)),
                                     if Find(input[CORE_PATH].root, DC_CREATOR).Some? then Some(author) else None)
    {
      var _ := Unpack(Zip(input));
      var _ := InjectMetadata(clockStamp, author, Some(session));
      StapleThenVerify(input, author, session, Fingerprint(sha256, author, session));
      var archive := Pack();
      result := Verify(archive);
    }
  }
}
