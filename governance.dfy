/** The governance stack of xpii-chain/core/governance.py: an agent identity
    that can be revoked, an append-only hash-chained audit log, a policy
    engine that runs named predicates and logs each verdict, and an operator
    kill switch.

    SHA-256 and `json.dumps(..., sort_keys=True)` are not implemented: every
    object that hashes receives them as function values (`sha256`, `dumps`).
    Clock readings and the `uuid4` seed are parameters. The lock and the
    `threading.Event` become plain fields of sequential classes. */
module Governance {
  import opened Wrappers
  import opened Text

  // ---------------------------------------------------------------------
  // AgentIdentity
  // ---------------------------------------------------------------------

  const AGENT_PREFIX := "AGENT"
  const DEFAULT_AGENT_NAME := "XPII-STAPLER"

  /** The text hashed to obtain an identity: `AGENT:<name>:<seed>`. */
  function IdentityPreimage(name: string, seed: string): string {
    AGENT_PREFIX + ":" + name + ":" + seed
  }

  /** `AGENT:` followed by the first 16 characters of the identity hash. */
  function IdentityIdOf(identityHash: string): (id: string)
    ensures 6 <= |id| <= 6 + 16 && id[..6] == "AGENT:"
    ensures |id| - 6 <= |identityHash| && id[6..] == identityHash[..|id| - 6]
    ensures |id| == 6 + (if |identityHash| < 16 then |identityHash| else 16)
  {
    AGENT_PREFIX + ":" + Take(identityHash, 16)
  }

  /** What a policy sees of an identity: its id and the result of `verify()`. */
  datatype IdentityView = IdentityView(identityId: string, verified: bool)

  class AgentIdentity {
    const name: string
    const seed: string
    const createdAt: string
    const sha256: string -> string
    var identityHash: string
    var revoked: bool

    /** A new identity for `name`; `seed` stands for `str(uuid.uuid4())` and
        `createdAt` for the creation time. */
    constructor (seed: string, createdAt: string, sha256: string -> string,
                 name: string := DEFAULT_AGENT_NAME)
      ensures this.name == name && this.seed == seed && this.createdAt == createdAt
      ensures this.sha256 == sha256
      ensures identityHash == sha256(IdentityPreimage(name, seed))
      ensures !revoked
      ensures Verify()
    {
      this.name := name;
      this.seed := seed;
      this.createdAt := createdAt;
      this.sha256 := sha256;
      identityHash := sha256(IdentityPreimage(name, seed));
      revoked := false;
    }

    function IdentityId(): (id: string)
      reads this
      ensures |id| >= 6 && id[..6] == "AGENT:"
    {
      IdentityIdOf(identityHash)
    }

    /** True exactly when the identity is not revoked and its stored hash
        still equals the hash recomputed from its name and seed. */
    function Verify(): (ok: bool)
      reads this
      ensures ok ==> !revoked
      ensures ok <==> !revoked && identityHash == sha256(IdentityPreimage(name, seed))
    {
      if revoked then false
      else identityHash == sha256(IdentityPreimage(name, seed))
    }

    /** One-way: no method clears `revoked` again. */
    method Revoke()
      modifies this`revoked
      ensures revoked && !Verify()
    {
      revoked := true;
    }

    function View(): (v: IdentityView)
      reads this
      ensures v.identityId == IdentityId() && v.verified == Verify()
    {
      IdentityView(IdentityId(), Verify())
    }
  }

  // ---------------------------------------------------------------------
  // AuditLog
  // ---------------------------------------------------------------------

  const GENESIS := "GENESIS"

  /** The JSON values stored in an entry's `context`. */
  datatype Json = JInt(i: int) | JStr(s: string) | JList(items: seq<Json>)

  /** An audit entry without its `entry_hash`: exactly the fields that are
      serialised and hashed. */
  datatype EntryBody = EntryBody(
    seqNo: int,
    timestamp: string,
    agentId: string,
    action: string,
    context: map<string, Json>,
    outcome: string,
    prevHash: string)

  datatype Entry = Entry(body: EntryBody, entryHash: string)

  /** `sha256(json.dumps(body, sort_keys=True))`. */
  function EntryHash(sha256: string -> string, dumps: EntryBody -> string, b: EntryBody): string {
    sha256(dumps(b))
  }

  /** The hash entry `i` must chain to: "GENESIS" for the first entry, the
      previous entry's `entry_hash` otherwise. For `i == |es|` it is the
      chain head, the hash the next appended entry will chain to. */
  function PrevHash(es: seq<Entry>, i: nat): string
    requires i <= |es|
  {
    if i == 0 then GENESIS else es[i - 1].entryHash
  }

  /** The integrity condition `verify_chain` checks: every stored hash is
      the hash of its entry's other fields, and every entry chains to its
      predecessor. */
  predicate Linked(es: seq<Entry>, sha256: string -> string, dumps: EntryBody -> string) {
    forall i :: 0 <= i < |es| ==>
      es[i].entryHash == EntryHash(sha256, dumps, es[i].body) &&
      es[i].body.prevHash == PrevHash(es, i)
  }

  /** The log `es` after one more `record`: the new entry's `seq` is the
      number of entries before it and it chains to the current head. */
  function Append(es: seq<Entry>, sha256: string -> string, dumps: EntryBody -> string,
                  timestamp: string, agentId: string, action: string,
                  context: map<string, Json>, outcome: string): seq<Entry>
  {
    var b := EntryBody(|es|, timestamp, agentId, action, context, outcome, PrevHash(es, |es|));
    es + [Entry(b, EntryHash(sha256, dumps, b))]
  }

  /** The appended entry carries the given fields, is numbered by the old
      length, chains to the old head and stores the hash of its fields. */
  lemma AppendedEntry(es: seq<Entry>, sha256: string -> string, dumps: EntryBody -> string,
                      timestamp: string, agentId: string, action: string,
                      context: map<string, Json>, outcome: string)
    ensures var r := Append(es, sha256, dumps, timestamp, agentId, action, context, outcome);
      |r| == |es| + 1 && r[..|es|] == es
    ensures var e := Append(es, sha256, dumps, timestamp, agentId, action, context, outcome)[|es|];
      e.body.seqNo == |es| &&
      e.body.prevHash == (if es == [] then GENESIS else es[|es| - 1].entryHash) &&
      e.entryHash == sha256(dumps(e.body)) &&
      e.body.timestamp == timestamp && e.body.agentId == agentId &&
      e.body.action == action && e.body.context == context && e.body.outcome == outcome
  {
  }

  /** Appending through `record` keeps a linked log linked and leaves every
      earlier entry as it was. */
  lemma {:induction false} AppendLinked(es: seq<Entry>, sha256: string -> string,
                                        dumps: EntryBody -> string, timestamp: string,
                                        agentId: string, action: string,
                                        context: map<string, Json>, outcome: string)
    requires Linked(es, sha256, dumps)
    ensures var es' := Append(es, sha256, dumps, timestamp, agentId, action, context, outcome);
      |es'| == |es| + 1 && es'[..|es|] == es && Linked(es', sha256, dumps) &&
      es'[|es|].body.seqNo == |es| && es'[|es|].body.prevHash == PrevHash(es, |es|)
  {
    var b := EntryBody(|es|, timestamp, agentId, action, context, outcome, PrevHash(es, |es|));
    var e := Entry(b, EntryHash(sha256, dumps, b));
    var es' := es + [e];
    assert Append(es, sha256, dumps, timestamp, agentId, action, context, outcome) == es';
    assert es'[..|es|] == es;
    forall i | 0 <= i < |es'|
      ensures es'[i].entryHash == EntryHash(sha256, dumps, es'[i].body)
      ensures es'[i].body.prevHash == PrevHash(es', i)
    {
      if i < |es| {
        assert es'[i] == es[i];
        assert i > 0 ==> es'[i - 1] == es[i - 1];
      } else {
        assert es'[i] == e;
      }
    }
  }

  /** Every log produced by `record` calls alone, from the empty log, is
      linked: `verify_chain` accepts it. */
  lemma {:induction false} RecordedLogsAreLinked(
    n: nat, sha256: string -> string, dumps: EntryBody -> string,
    timestamps: seq<string>, agentId: string, actions: seq<string>,
    contexts: seq<map<string, Json>>, outcomes: seq<string>)
    requires n <= |timestamps| && n <= |actions| && n <= |contexts| && n <= |outcomes|
    ensures |Replay(n, sha256, dumps, timestamps, agentId, actions, contexts, outcomes)| == n
    ensures Linked(Replay(n, sha256, dumps, timestamps, agentId, actions, contexts, outcomes), sha256, dumps)
  {
    if n > 0 {
      RecordedLogsAreLinked(n - 1, sha256, dumps, timestamps, agentId, actions, contexts, outcomes);
      var es := Replay(n - 1, sha256, dumps, timestamps, agentId, actions, contexts, outcomes);
      AppendLinked(es, sha256, dumps, timestamps[n - 1], agentId, actions[n - 1],
                   contexts[n - 1], outcomes[n - 1]);
    }
  }

  /** The log after the first `n` of a series of `record` calls. */
  function Replay(n: nat, sha256: string -> string, dumps: EntryBody -> string,
                  timestamps: seq<string>, agentId: string, actions: seq<string>,
                  contexts: seq<map<string, Json>>, outcomes: seq<string>): seq<Entry>
    requires n <= |timestamps| && n <= |actions| && n <= |contexts| && n <= |outcomes|
  {
    if n == 0 then []
    else Append(Replay(n - 1, sha256, dumps, timestamps, agentId, actions, contexts, outcomes),
                sha256, dumps, timestamps[n - 1], agentId, actions[n - 1],
                contexts[n - 1], outcomes[n - 1])
  }

  /** Tampering with the fields of entry `k` while keeping its stored hash
      is detected, as long as the hash tells the two bodies apart. */
  lemma TamperedBodyDetected(es: seq<Entry>, sha256: string -> string,
                             dumps: EntryBody -> string, k: nat, b: EntryBody)
    requires Linked(es, sha256, dumps) && k < |es|
    requires EntryHash(sha256, dumps, b) != EntryHash(sha256, dumps, es[k].body)
    ensures !Linked(es[k := Entry(b, es[k].entryHash)], sha256, dumps)
  {
    var es' := es[k := Entry(b, es[k].entryHash)];
    assert es'[k].entryHash != EntryHash(sha256, dumps, es'[k].body);
  }

  /** Tampering with entry `k` and recomputing its hash is detected by the
      next entry, whose `prev_hash` still names the old hash. */
  lemma RehashedTamperDetected(es: seq<Entry>, sha256: string -> string,
                               dumps: EntryBody -> string, k: nat, b: EntryBody)
    requires Linked(es, sha256, dumps) && k + 1 < |es|
    requires EntryHash(sha256, dumps, b) != EntryHash(sha256, dumps, es[k].body)
    ensures !Linked(es[k := Entry(b, EntryHash(sha256, dumps, b))], sha256, dumps)
  {
    var es' := es[k := Entry(b, EntryHash(sha256, dumps, b))];
    assert es'[k + 1] == es[k + 1];
    assert es'[k + 1].body.prevHash != PrevHash(es', k + 1);
  }

  /** Entry `n` of `new` was appended with these fields and nothing before
      it changed. */
  predicate AppendedOne(before: seq<Entry>, after: seq<Entry>, action: string,
                        context: map<string, Json>, outcome: string)
  {
    |after| == |before| + 1 && after[..|before|] == before &&
    after[|before|].body.action == action &&
    after[|before|].body.context == context &&
    after[|before|].body.outcome == outcome
  }

  class AuditLog {
    const identity: AgentIdentity
    const sha256: string -> string
    const dumps: EntryBody -> string
    var entries: seq<Entry>
    var chainHash: string

    /** The log is linked, numbered from 0, and `chainHash` is its head. */
    ghost predicate Valid()
      reads this
    {
      Linked(entries, sha256, dumps) &&
      chainHash == PrevHash(entries, |entries|) &&
      forall i :: 0 <= i < |entries| ==> entries[i].body.seqNo == i
    }

    constructor (identity: AgentIdentity, sha256: string -> string, dumps: EntryBody -> string)
      ensures Valid()
      ensures this.identity == identity && this.sha256 == sha256 && this.dumps == dumps
      ensures entries == [] && chainHash == GENESIS
    {
      this.identity := identity;
      this.sha256 := sha256;
      this.dumps := dumps;
      entries := [];
      chainHash := GENESIS;
    }

    /** Appends one entry stamped with `timestamp` and the identity's id;
        returns it. The defaults are those of the source. */
    method Record(timestamp: string, action: string, context: map<string, Json> := map[],
                  outcome: string := "OK") returns (e: Entry)
      requires Valid()
      modifies this
      ensures Valid()
      ensures entries == Append(old(entries), sha256, dumps, timestamp, identity.IdentityId(),
                                action, context, outcome)
      ensures entries == old(entries) + [e]
      ensures e.body.seqNo == |old(entries)| && e.body.prevHash == old(chainHash)
      ensures e.entryHash == EntryHash(sha256, dumps, e.body)
      ensures chainHash == e.entryHash
      ensures AppendedOne(old(entries), entries, action, context, outcome)
    {
      var body := EntryBody(|entries|, timestamp, identity.IdentityId(), action, context,
                            outcome, chainHash);
      e := Entry(body, sha256(dumps(body)));
      AppendLinked(entries, sha256, dumps, timestamp, identity.IdentityId(), action, context, outcome);
      chainHash := e.entryHash;
      entries := entries + [e];
    }

    /** Replays the chain from "GENESIS"; works on any contents, including
        entries altered after they were recorded. */
    method VerifyChain() returns (ok: bool)
      ensures ok == Linked(entries, sha256, dumps)
    {
      var prev := GENESIS;
      var i := 0;
      while i < |entries|
        invariant 0 <= i <= |entries|
        invariant Linked(entries[..i], sha256, dumps)
        invariant prev == PrevHash(entries, i)
      {
        var stored := entries[i].entryHash;
        var computed := sha256(dumps(entries[i].body));
        if computed != stored {
          return false;
        }
        if entries[i].body.prevHash != prev {
          return false;
        }
        assert entries[..i + 1] == entries[..i] + [entries[i]];
        prev := stored;
        i := i + 1;
      }
      assert entries[..i] == entries;
      ok := true;
    }

    /** A snapshot of the entries. */
    method Export() returns (snapshot: seq<Entry>)
      ensures snapshot == entries
    {
      snapshot := entries;
    }
  }

  // ---------------------------------------------------------------------
  // PolicyEngine
  // ---------------------------------------------------------------------

  /** The action context a policy inspects: the identity (if any) and the
      string-valued fields such as "author", "input_path", "output_path". */
  datatype Context = Context(identity: Option<IdentityView>, fields: map<string, string>) {
    /** `ctx.get(key, "")` */
    function Get(key: string): string {
      if key in fields then fields[key] else ""
    }
  }

  datatype Verdict = Verdict(allowed: bool, reason: string)

  /** A registered policy: one of the three built-ins or a caller-supplied
      predicate. */
  datatype Policy =
    | IdentityMustBeValid
    | NoEmptyAuthor
    | NoPathTraversal
    | Custom(check: Context -> Verdict)

  function IdentityMustBeValidPolicy(ctx: Context): (v: Verdict)
    ensures v.allowed <==> ctx.identity.Some? && ctx.identity.value.verified
  {
    match ctx.identity
    case None => Verdict(false, "No agent identity present in context.")
    case Some(id) =>
      if !id.verified then
        Verdict(false, "Agent identity '" + id.identityId + "' is invalid or revoked.")
      else Verdict(true, "Identity verified.")
  }

  const AUTHOR_EMPTY_REASON := "Author field must not be empty."

  /** Denies exactly when the author is missing or all whitespace. */
  function NoEmptyAuthorPolicy(ctx: Context): (v: Verdict)
    ensures !v.allowed <==> AllSpace(ctx.Get("author"))
    ensures !v.allowed ==> v.reason == AUTHOR_EMPTY_REASON
  {
    var author := Strip(ctx.Get("author"));
    StripEmptyIff(ctx.Get("author"));
    if author == [] then Verdict(false, AUTHOR_EMPTY_REASON)
    else Verdict(true, "Author field present.")
  }

  /** The reason given for a path containing "..". */
  function TraversalReason(key: string, path: string): string {
    "Path traversal detected in '" + key + "': " + PyRepr(path) + "."
  }

  /** Denies exactly when "input_path" or "output_path" contains "..";
      the reason names "input_path" when both do. */
  function NoPathTraversalPolicy(ctx: Context): (v: Verdict)
    ensures !v.allowed <==>
      Contains(ctx.Get("input_path"), "..") || Contains(ctx.Get("output_path"), "..")
    ensures Contains(ctx.Get("input_path"), "..") ==>
      v.reason == TraversalReason("input_path", ctx.Get("input_path"))
    ensures !Contains(ctx.Get("input_path"), "..") && Contains(ctx.Get("output_path"), "..") ==>
      v.reason == TraversalReason("output_path", ctx.Get("output_path"))
  {
    var keys := ["input_path", "output_path"];
    if Contains(ctx.Get(keys[0]), "..") then
      Verdict(false, TraversalReason(keys[0], ctx.Get(keys[0])))
    else if Contains(ctx.Get(keys[1]), "..") then
      Verdict(false, TraversalReason(keys[1], ctx.Get(keys[1])))
    else Verdict(true, "No path traversal detected.")
  }

  /** Python's `repr` of a string: quoted with ' unless the string holds '
      and no ", with backslash escapes for the quote, the backslash, tab,
      newline, carriage return and the other ASCII control characters. */
  function PyRepr(s: string): (r: string)
    ensures |r| >= |s| + 2 && r[0] == r[|r| - 1]
    ensures r[0] == '"' <==> '\'' in s && '"' !in s
    ensures r[0] != '"' ==> r[0] == '\''
    ensures (forall i :: 0 <= i < |s| ==> Plain(s[i], r[0])) ==> r == [r[0]] + s + [r[0]]
  {
    var q := if '\'' in s && '"' !in s then '"' else '\'';
    [q] + ReprBody(s, q) + [q]
  }

  /** A character `repr` writes as itself inside quotes `q`. */
  predicate Plain(c: char, q: char) {
    c != q && c != '\\' && c as int >= 0x20 && c as int != 0x7F
  }

  function ReprBody(s: string, q: char): (r: string)
    ensures |r| >= |s|
    ensures (forall i :: 0 <= i < |s| ==> Plain(s[i], q)) ==> r == s
  {
    if s == [] then [] else ReprChar(s[0], q) + ReprBody(s[1..], q)
  }

  function HexDigit(n: int): char
    requires 0 <= n < 16
  {
    if n < 10 then ('0' as int + n) as char else ('a' as int + n - 10) as char
  }

  function ReprChar(c: char, q: char): string {
    if c == q || c == '\\' then ['\\', c]
    else if c == '\t' then "\\t"
    else if c == '\n' then "\\n"
    else if c == '\r' then "\\r"
    else if c as int < 0x20 || c as int == 0x7F then
      "\\x" + [HexDigit(c as int / 16), HexDigit(c as int % 16)]
    else [c]
  }

  function Run(p: Policy, ctx: Context): Verdict {
    match p
    case IdentityMustBeValid => IdentityMustBeValidPolicy(ctx)
    case NoEmptyAuthor => NoEmptyAuthorPolicy(ctx)
    case NoPathTraversal => NoPathTraversalPolicy(ctx)
    case Custom(check) => check(ctx)
  }

  /** `[POLICY:<name>] <reason>` */
  function FailureMessage(name: string, reason: string): string {
    "[POLICY:" + name + "] " + reason
  }

  predicate Covers(names: seq<string>, pols: map<string, Policy>) {
    forall i :: 0 <= i < |names| ==> names[i] in pols
  }

  /** The failure list `evaluate` builds: one message per denying policy,
      in the order of `names`. */
  function Failures(names: seq<string>, pols: map<string, Policy>, ctx: Context): (fs: seq<string>)
    requires Covers(names, pols)
    ensures |fs| <= |names|
    decreases |names|
  {
    if names == [] then []
    else
      var last := names[|names| - 1];
      var v := Run(pols[last], ctx);
      Failures(names[..|names| - 1], pols, ctx) +
        (if v.allowed then [] else [FailureMessage(last, v.reason)])
  }

  /** One more policy in the scan extends the failure list by at most its
      own message. */
  lemma FailuresStep(names: seq<string>, pols: map<string, Policy>, ctx: Context, i: nat)
    requires Covers(names, pols) && i < |names|
    ensures Covers(names[..i], pols) && Covers(names[..i + 1], pols)
    ensures var v := Run(pols[names[i]], ctx);
            Failures(names[..i + 1], pols, ctx) ==
              Failures(names[..i], pols, ctx) +
              (if v.allowed then [] else [FailureMessage(names[i], v.reason)])
  {
    assert names[..i + 1][..i] == names[..i];
  }

  /** The failure list is empty exactly when every policy allows. */
  lemma {:induction false} FailuresEmptyIff(names: seq<string>, pols: map<string, Policy>, ctx: Context)
    requires Covers(names, pols)
    ensures Failures(names, pols, ctx) == [] <==>
            forall i :: 0 <= i < |names| ==> Run(pols[names[i]], ctx).allowed
    decreases |names|
  {
    if names != [] {
      var init := names[..|names| - 1];
      FailuresEmptyIff(init, pols, ctx);
      assert forall i :: 0 <= i < |init| ==> init[i] == names[i];
    }
  }

  /** Every denying policy contributes its message. */
  lemma {:induction false} FailuresComplete(names: seq<string>, pols: map<string, Policy>,
                                            ctx: Context, k: nat)
    requires Covers(names, pols) && k < |names|
    requires !Run(pols[names[k]], ctx).allowed
    ensures FailureMessage(names[k], Run(pols[names[k]], ctx).reason) in Failures(names, pols, ctx)
    decreases |names|
  {
    if k < |names| - 1 {
      FailuresComplete(names[..|names| - 1], pols, ctx, k);
    }
  }

  /** Every message comes from a denying policy. */
  lemma {:induction false} FailuresSound(names: seq<string>, pols: map<string, Policy>,
                                         ctx: Context, f: string)
    requires Covers(names, pols)
    requires f in Failures(names, pols, ctx)
    ensures exists k :: 0 <= k < |names| && !Run(pols[names[k]], ctx).allowed &&
                        f == FailureMessage(names[k], Run(pols[names[k]], ctx).reason)
    decreases |names|
  {
    var init := names[..|names| - 1];
    if f in Failures(init, pols, ctx) {
      FailuresSound(init, pols, ctx, f);
      var k :| 0 <= k < |init| && !Run(pols[init[k]], ctx).allowed &&
               f == FailureMessage(init[k], Run(pols[init[k]], ctx).reason);
      assert init[k] == names[k];
    } else {
      assert !Run(pols[names[|names| - 1]], ctx).allowed;
    }
  }

  /** Failures over `a` then `b` are the failures of `a` followed by those
      of `b`: messages keep the order of registration. */
  lemma {:induction false} FailuresConcat(a: seq<string>, b: seq<string>,
                                          pols: map<string, Policy>, ctx: Context)
    requires Covers(a, pols) && Covers(b, pols)
    ensures Covers(a + b, pols)
    ensures Failures(a + b, pols, ctx) == Failures(a, pols, ctx) + Failures(b, pols, ctx)
    decreases |b|
  {
    if b == [] {
      assert a + b == a;
    } else {
      var b' := b[..|b| - 1];
      FailuresConcat(a, b', pols, ctx);
      assert (a + b)[..|a + b| - 1] == a + b';
    }
  }

  const BUILTIN_NAMES := ["identity_must_be_valid", "no_empty_author", "no_path_traversal"]

  function BuiltinPolicies(): map<string, Policy> {
    map["identity_must_be_valid" := IdentityMustBeValid,
        "no_empty_author" := NoEmptyAuthor,
        "no_path_traversal" := NoPathTraversal]
  }

  /** Under the built-in policies, a context whose author is empty (or
      missing, or all whitespace) is denied with the no_empty_author
      message among the failures. */
  lemma EmptyAuthorDenied(ctx: Context)
    requires AllSpace(ctx.Get("author"))
    ensures Covers(BUILTIN_NAMES, BuiltinPolicies())
    ensures FailureMessage("no_empty_author", AUTHOR_EMPTY_REASON) in
            Failures(BUILTIN_NAMES, BuiltinPolicies(), ctx)
  {
    assert BUILTIN_NAMES[1] == "no_empty_author";
    FailuresComplete(BUILTIN_NAMES, BuiltinPolicies(), ctx, 1);
  }

  function JStrings(ss: seq<string>): (js: seq<Json>)
    ensures |js| == |ss| && forall i :: 0 <= i < |ss| ==> js[i] == JStr(ss[i])
  {
    seq(|ss|, i requires 0 <= i < |ss| => JStr(ss[i]))
  }

  /** The `context` logged for one evaluation. */
  function EvaluationContext(policyCount: nat, failures: seq<string>): map<string, Json> {
    map["policy_count" := JInt(policyCount), "failures" := JList(JStrings(failures))]
  }

  class PolicyEngine {
    const log: AuditLog
    /** Registration order of the policy names (dict insertion order). */
    var order: seq<string>
    var policies: map<string, Policy>

    ghost predicate Valid()
      reads this
    {
      (forall n :: n in order <==> n in policies) &&
      (forall i, j :: 0 <= i < j < |order| ==> order[i] != order[j])
    }

    /** Registers the three built-ins in their source order. */
    constructor (log: AuditLog)
      ensures Valid() && this.log == log
      ensures order == BUILTIN_NAMES && policies == BuiltinPolicies()
    {
      this.log := log;
      order := BUILTIN_NAMES;
      policies := BuiltinPolicies();
    }

    /** Adds `name`, or replaces the policy of an existing name, which keeps
        its place in the order. */
    method Register(name: string, policy: Policy)
      requires Valid()
      modifies this`order, this`policies
      ensures Valid()
      ensures policies == old(policies)[name := policy]
      ensures order == if name in old(policies) then old(order) else old(order) + [name]
    {
      if name !in policies {
        order := order + [name];
      }
      policies := policies[name := policy];
    }

    /** Runs every policy in registration order, then records exactly one
        audit entry `policy_evaluate:<action>` with outcome ALLOWED or
        DENIED. */
    method Evaluate(timestamp: string, action: string, ctx: Context)
      returns (allowed: bool, failures: seq<string>)
      requires Valid() && log.Valid()
      modifies log
      ensures log.Valid()
      ensures Covers(order, policies)
      ensures failures == Failures(order, policies, ctx)
      ensures allowed <==> failures == []
      ensures AppendedOne(old(log.entries), log.entries, "policy_evaluate:" + action,
                          EvaluationContext(|policies|, failures),
                          if allowed then "ALLOWED" else "DENIED")
    {
      assert Covers(order, policies);
      failures := [];
      var i := 0;
      while i < |order|
        invariant 0 <= i <= |order|
        invariant failures == Failures(order[..i], policies, ctx)
        invariant unchanged(log)
      {
        var name := order[i];
        var verdict := Run(policies[name], ctx);
        FailuresStep(order, policies, ctx, i);
        if !verdict.allowed {
          failures := failures + [FailureMessage(name, verdict.reason)];
        }
        i := i + 1;
      }
      assert order[..i] == order;
      allowed := |failures| == 0;
      var _ := log.Record(timestamp, "policy_evaluate:" + action,
                          EvaluationContext(|policies|, failures),
                          if allowed then "ALLOWED" else "DENIED");
    }
  }

  // ---------------------------------------------------------------------
  // OperatorControl
  // ---------------------------------------------------------------------

  const BLOCKED_MESSAGE :=
    "Operation blocked: operator kill-switch is active. Human authorization required to resume."

  class OperatorControl {
    const log: AuditLog
    /** The `threading.Event` halt flag. */
    var halted: bool

    constructor (log: AuditLog)
      ensures this.log == log && !halted
    {
      this.log := log;
      halted := false;
    }

    /** Sets the flag and logs `operator_halt` / HALTED, even when already
        halted. */
    method Halt(timestamp: string, reason: string := "Operator emergency stop")
      requires log.Valid()
      modifies this`halted, log
      ensures halted && log.Valid()
      ensures AppendedOne(old(log.entries), log.entries, "operator_halt",
                          map["reason" := JStr(reason)], "HALTED")
    {
      halted := true;
      var _ := log.Record(timestamp, "operator_halt", map["reason" := JStr(reason)], "HALTED");
    }

    /** Clears the flag and logs `operator_resume` / RESUMED, even when not
        halted. */
    method Resume(timestamp: string, reason: string := "Operator resumed operations")
      requires log.Valid()
      modifies this`halted, log
      ensures !halted && log.Valid()
      ensures AppendedOne(old(log.entries), log.entries, "operator_resume",
                          map["reason" := JStr(reason)], "RESUMED")
    {
      halted := false;
      var _ := log.Record(timestamp, "operator_resume", map["reason" := JStr(reason)], "RESUMED");
    }

    /** Raises (here: fails with the source's message) exactly when halted. */
    method AssertActive() returns (r: Outcome<string>)
      ensures r.Fail? <==> halted
      ensures r.Fail? ==> r.error == BLOCKED_MESSAGE
    {
      if halted {
        return Fail(BLOCKED_MESSAGE);
      }
      return Pass;
    }
  }

  /** After `halt`, `assert_active` raises; after a following `resume` it
      returns normally; the two calls add two entries to the log. */
  method HaltThenResume(control: OperatorControl, t1: string, t2: string)
    returns (whileHalted: Outcome<string>, afterResume: Outcome<string>)
    requires control.log.Valid()
    modifies control, control.log
    ensures whileHalted == Fail(BLOCKED_MESSAGE) && afterResume == Pass
    ensures |control.log.entries| == |old(control.log.entries)| + 2
  {
    control.Halt(t1);
    whileHalted := control.AssertActive();
    control.Resume(t2);
    afterResume := control.AssertActive();
  }

  /** `create_governance_stack`: one identity, one log bound to it, and an
      engine and a kill switch sharing that log. */
  method CreateGovernanceStack(seed: string, createdAt: string, sha256: string -> string,
                               dumps: EntryBody -> string, agentName: string := DEFAULT_AGENT_NAME)
    returns (identity: AgentIdentity, log: AuditLog, engine: PolicyEngine, control: OperatorControl)
    ensures fresh(identity) && fresh(log) && fresh(engine) && fresh(control)
    ensures identity.name == agentName && identity.seed == seed && identity.createdAt == createdAt
    ensures identity.sha256 == sha256 && identity.Verify()
    ensures log.identity == identity && log.sha256 == sha256 && log.dumps == dumps
    ensures log.Valid() && log.entries == []
    ensures engine.log == log && engine.Valid()
    ensures engine.order == BUILTIN_NAMES && engine.policies == BuiltinPolicies()
    ensures control.log == log && !control.halted
  {
    identity := new AgentIdentity(seed, createdAt, sha256, agentName);
    log := new AuditLog(identity, sha256, dumps);
    engine := new PolicyEngine(log);
    control := new OperatorControl(log);
  }
}
