# XPII CHAIN core, modelled in Dafny

This project models the three components of XPII CHAIN that carry its logic. It proves what they promise.

- **Governance stack** (`xpii-chain/core/governance.py`), module `Governance`:
  - `AgentIdentity`: a one-way revocation flag and a recompute-and-compare `verify`.
  - `AuditLog`: an append-only, hash-chained ledger and its `verify_chain` replay.
  - `PolicyEngine`: the three built-in policies, `register`, and `evaluate`, which writes exactly one audit entry.
  - `OperatorControl`: the halt flag behind `assert_active`.
- **Provenance stapler** (`xpii-chain/core/stapler.py`), module `Stapler`:
  - The unpack, inject and pack pipeline over a package: a map from part path to an abstract XML tree or to unparsable bytes.
  - `verify`, which reads the provenance back out of `docProps/core.xml`.
- **Local assistant** (`xpii-chain/core/agent.py`), module `Agent`:
  - The text normaliser.
  - The keyword-scoring matcher with its earliest-wins tie break.
  - The conversation history.

`Text` holds the Python string operations the three use: `strip`, `split`, `replace`, `in`, `upper` and `lower`. `Wrappers` holds `Option`, `Result` and `Outcome`.

The following stand outside the model and enter as parameters or constants of the classes:
- SHA-256 and `json.dumps(sort_keys=True)` are opaque functions (`sha256`, `dumps`).
- `uuid.uuid4()` is a `seed` parameter.
- Every `datetime.now()` is a timestamp parameter.

The lock and the `threading.Event` become plain fields of sequential classes. Exceptions become `Outcome`/`Result` values:
- `RuntimeError` from `assert_active`;
- `BadZipFile` from `unpack`;
- `XMLSyntaxError` from parsing a part.

Facts about the code that the model keeps:
- The fingerprint is SHA-256 of the text `author:session_id` (`xpii-chain/core/stapler.py:50`).
- The description reads `XPII-CHAIN-PROVENANCE: <session_id> | SHA-256: <fingerprint>` (`xpii-chain/core/stapler.py:68`).
- The RSID is the first eight characters of the fingerprint, upper-cased (`xpii-chain/core/stapler.py:84`).
- `dc:creator` is overwritten only when it is present; `inject_metadata` never creates it (`xpii-chain/core/stapler.py:60-62`). The assistant's help text says the author is embedded in the `dc:creator` element (`xpii-chain/core/agent.py:61-63`), which holds only for documents that already have one.
- `verify` leaves the author as `None` when `dc:creator` is missing. It splits the description on `|` and strips the two labels. It reports errors in its status field (`xpii-chain/core/stapler.py:119-153`).
- `pack` writes the files in the order `os.walk` yields them (`xpii-chain/core/stapler.py:107-111`); the model keeps the package as a map, so the order of archive members is not modelled.

## Model

| member | source | states |
|---|---|---|
| Governance.IdentityIdOf | xpii-chain/core/governance.py:42-45 | the identity id is `AGENT:` followed by the first 16 characters of the identity hash, so it is 6 + min(16, hash length) characters long |
| Governance.AgentIdentity.constructor | xpii-chain/core/governance.py:33-40 | a fresh identity stores the hash of `AGENT:<name>:<seed>`, is not revoked, and verifies |
| Governance.AgentIdentity.IdentityId | xpii-chain/core/governance.py:42-45 | every identity id starts with `AGENT:` |
| Governance.AgentIdentity.Verify | xpii-chain/core/governance.py:55-65 | true exactly when not revoked and the stored hash equals the recomputed one |
| Governance.AgentIdentity.Revoke | xpii-chain/core/governance.py:51-53 | after revoke the identity is revoked and no longer verifies; no method clears the flag |
| Governance.AgentIdentity.View | xpii-chain/core/governance.py:176-181 | what a policy context sees of an identity: its id and its current verify result |
| Governance.AppendedEntry | xpii-chain/core/governance.py:111-123 | `record` adds one entry after the old ones: its seq is the old count, its prev hash is `GENESIS` or the last entry hash, its entry hash is the hash of its fields, and it carries the given action, context and outcome |
| Governance.AppendLinked | xpii-chain/core/governance.py:110-124 | appending to a linked chain adds one entry numbered by the old length, whose prev hash is the old head; it keeps earlier entries and keeps the chain linked |
| Governance.RecordedLogsAreLinked | xpii-chain/core/governance.py:126-142 | every log built only by `record` calls, the empty log included, has one entry per call and passes the chain check |
| Governance.TamperedBodyDetected | xpii-chain/core/governance.py:133-138 | altering an entry's fields so that they hash differently while keeping its stored hash makes the chain check fail |
| Governance.RehashedTamperDetected | xpii-chain/core/governance.py:136-140 | altering a non-final entry and re-hashing it makes the chain check fail at the next entry's prev hash |
| Governance.AuditLog.constructor | xpii-chain/core/governance.py:94-98 | a new log is empty, its head is `GENESIS`, and it is valid |
| Governance.AuditLog.Record | xpii-chain/core/governance.py:100-124 | appends exactly one entry with seq = prior count, prev hash = old head and entry hash = hash of its other fields; the head becomes that hash; earlier entries are unchanged; the log stays linked |
| Governance.AuditLog.VerifyChain | xpii-chain/core/governance.py:126-142 | the replay loop returns true exactly when every stored hash matches its fields and every prev hash matches the entry before (`GENESIS` first) |
| Governance.AuditLog.Export | xpii-chain/core/governance.py:144-147 | the snapshot equals the current entries |
| Governance.IdentityMustBeValidPolicy | xpii-chain/core/governance.py:176-182 | denies exactly when the identity is absent or fails verify |
| Governance.NoEmptyAuthorPolicy | xpii-chain/core/governance.py:184-188 | denies exactly when the author, missing counted as empty, is all whitespace; the reason is the fixed message |
| Governance.NoPathTraversalPolicy | xpii-chain/core/governance.py:190-195 | denies exactly when `..` occurs in `input_path` or `output_path`; the reason names `input_path` when it holds `..`, otherwise `output_path` |
| Governance.PyRepr | xpii-chain/core/governance.py:194 | `repr` quotes with `"` exactly when the string holds `'` and no `"`, otherwise with `'`; a string without characters to escape appears unchanged between the quotes |
| Governance.Failures | xpii-chain/core/governance.py:217-221 | the failure list has at most one message per policy |
| Governance.FailuresStep | xpii-chain/core/governance.py:218-221 | scanning one more policy extends the list by that policy's message exactly when it denies |
| Governance.FailuresEmptyIff | xpii-chain/core/governance.py:217-223 | the failure list is empty exactly when every policy allows |
| Governance.FailuresComplete | xpii-chain/core/governance.py:218-221 | every denying policy contributes `[POLICY:<name>] <reason>` |
| Governance.FailuresSound | xpii-chain/core/governance.py:218-221 | every failure message is `[POLICY:<name>] <reason>` of some denying policy |
| Governance.FailuresConcat | xpii-chain/core/governance.py:218-221 | failures are collected in registration order: the list for a concatenation is the concatenation of the lists |
| Governance.EmptyAuthorDenied | xpii-chain/core/governance.py:184-200 | with the built-ins registered, an all-whitespace author yields the `no_empty_author` failure |
| Governance.JStrings | xpii-chain/core/governance.py:226 | the failure list is stored in the audit context element by element as JSON strings |
| Governance.PolicyEngine.constructor | xpii-chain/core/governance.py:197-200 | a new engine holds exactly the three built-ins, in their source order |
| Governance.PolicyEngine.Register | xpii-chain/core/governance.py:206-208 | registering binds the name; a new name goes last and a re-registered name keeps its place |
| Governance.PolicyEngine.Evaluate | xpii-chain/core/governance.py:210-229 | the loop returns the failures of all policies in registration order, allowed iff there are none, and appends exactly one `policy_evaluate:<action>` entry with the policy count, the failures and ALLOWED/DENIED |
| Governance.OperatorControl.constructor | xpii-chain/core/governance.py:250-252 | a new control is not halted |
| Governance.OperatorControl.Halt | xpii-chain/core/governance.py:258-265 | sets the flag and appends one `operator_halt`/`HALTED` entry with the reason, even when already halted |
| Governance.OperatorControl.Resume | xpii-chain/core/governance.py:267-274 | clears the flag and appends one `operator_resume`/`RESUMED` entry with the reason, even when not halted |
| Governance.OperatorControl.AssertActive | xpii-chain/core/governance.py:276-285 | fails, with the kill-switch message, exactly when halted |
| Governance.HaltThenResume | xpii-chain/core/governance.py:258-285 | after halt, assert_active fails; after resume, it passes; the two calls add two entries |
| Governance.CreateGovernanceStack | xpii-chain/core/governance.py:292-304 | the factory builds a verified identity for the name, seed and time, an empty valid log bound to it and to the same hash and serialiser, an engine over that log with exactly the three built-ins in order, and an active control over that log |
| Stapler.FirstChild | xpii-chain/core/stapler.py:60-65 | `find` returns the first child with the tag, or none when no child has it |
| Stapler.FirstChildByTags | xpii-chain/core/stapler.py:60-65 | `find` depends only on the children's tags |
| Stapler.FirstChildAppend | xpii-chain/core/stapler.py:67-81 | after `SubElement` appends a child, `find` still returns an earlier match, else the new child if its tag matches |
| Stapler.SetText | xpii-chain/core/stapler.py:62-68 | the chosen child gets the new text and nothing else about it changes; every other child and the parent's own fields are kept, so `find` results are kept |
| Stapler.SetTextSame | xpii-chain/core/stapler.py:62-68 | setting a text to the value it already has leaves the tree unchanged |
| Stapler.EffectiveSession | xpii-chain/core/stapler.py:46-47 | an empty or missing session id is replaced by the clock stamp; any other is kept |
| Stapler.FingerprintInputInjective | xpii-chain/core/stapler.py:50 | the hashed text `author:session_id` determines the author and the session id when the author holds no colon |
| Stapler.Description | xpii-chain/core/stapler.py:68 | the description starts with `XPII-CHAIN-PROVENANCE:`, holds the session id after one space, and ends with the fingerprint |
| Stapler.Rsid | xpii-chain/core/stapler.py:84 | the RSID is the first eight characters of the fingerprint, or all of a shorter one, each uppercased |
| Stapler.RsidIsUpperHex | xpii-chain/core/stapler.py:84 | for a hex digest, the RSID is exactly 8 uppercase hex characters, each the uppercase of the fingerprint's character |
| Stapler.EditCore | xpii-chain/core/stapler.py:55-70 | an existing `dc:creator` keeps its place and gets the author as text, and none is created; an existing `dc:description` gets the description as text, else a new element holding only the description is appended last; every other child and the root's own fields are kept |
| Stapler.EditCoreIdempotent | xpii-chain/core/stapler.py:55-70 | editing core.xml twice with the same values equals editing it once |
| Stapler.EditCoreReadsBack | xpii-chain/core/stapler.py:60-68 | after the edit, the description reads back as written and the creator reads as the author exactly when it existed before |
| Stapler.CountRsid | xpii-chain/core/stapler.py:85-88 | counts the `w:rsid` children with the value; it is non-zero exactly when one exists |
| Stapler.EditSettings | xpii-chain/core/stapler.py:74-93 | when a `w:rsid` already has the value nothing changes; otherwise `w:rsid w:val=v` is appended to the first `w:rsids`, or a new `w:rsids` holding only it is appended last; no other child changes, and afterwards exactly one `w:rsid` has the value if none did |
| Stapler.EditSettingsIdempotent | xpii-chain/core/stapler.py:79-91 | a second RSID edit with the same value adds nothing |
| Stapler.EditPart | xpii-chain/core/stapler.py:55-99 | a missing part is skipped without error; an unparsable part fails with its path; otherwise only that part is replaced by its edited tree |
| Stapler.EditPartFixed | xpii-chain/core/stapler.py:96-99 | a part edit that reproduces the parsed tree leaves the package as it is |
| Stapler.Inject | xpii-chain/core/stapler.py:53-102 | the key set is kept; only core.xml and settings.xml may change; it succeeds with the fingerprint exactly when every present target part parses; core.xml and settings.xml get their edits |
| Stapler.InjectStopsAtFirstFailure | xpii-chain/core/stapler.py:53-100 | a part that does not parse stops the edits and is named: core.xml leaves the workspace untouched, settings.xml leaves settings as they were, document.xml comes after both edits were written |
| Stapler.InjectIdempotent | xpii-chain/core/stapler.py:44-102 | injecting twice with the same author and session gives the same workspace and result as injecting once, whether the first run succeeded or stopped at a part that does not parse, so a retry never adds a second RSID |
| Stapler.ParseDescription | xpii-chain/core/stapler.py:142-146 | the session id is stripped and has no `\|`; a hash is found exactly when a second segment exists and contains `SHA-256:`, and it is stripped |
| Stapler.Verify | xpii-chain/core/stapler.py:121-153 | NO_METADATA exactly when core.xml is absent; VERIFIED exactly when the description holds the token; NO_PROVENANCE otherwise; the author is the creator text; session id only when verified |
| Stapler.DescriptionSplits | xpii-chain/core/stapler.py:142 | splitting the written description on `\|` gives back its two halves |
| Stapler.DescriptionRoundTrip | xpii-chain/core/stapler.py:142-146 | parsing the description written for session S and hash F gives back S and F, when S and F hold no `\|`, no label and no surrounding space |
| Stapler.HexDigestIsClean | xpii-chain/core/stapler.py:145-146 | a hex digest holds no `\|`, no `SHA-256:` and no surrounding whitespace |
| Stapler.ProvenanceRoundTrip | xpii-chain/core/stapler.py:140-147 | the written description is non-empty, holds the token, and parses back to the session id and fingerprint |
| Stapler.VerifyProvenanced | xpii-chain/core/stapler.py:139-147 | a core.xml whose description holds the token verifies with the parsed session id and hash and the creator text |
| Stapler.StapleThenVerify | xpii-chain/core/stapler.py:44-153 | injecting, then verifying the result gives VERIFIED, the session id, the fingerprint, and the author exactly when `dc:creator` existed |
| Stapler.XpiiStapler.constructor | xpii-chain/core/stapler.py:14-17 | a new stapler has an empty working directory and no fingerprint |
| Stapler.XpiiStapler.Unpack | xpii-chain/core/stapler.py:34-42 | the working directory is emptied, then holds the archive's members; a corrupt archive fails and leaves it empty |
| Stapler.XpiiStapler.InjectMetadata | xpii-chain/core/stapler.py:44-102 | stores and returns the fingerprint of `author:session`, with the clock stamp for a missing session; the part edits are those of `Inject` |
| Stapler.XpiiStapler.Pack | xpii-chain/core/stapler.py:104-119 | the archive holds the working directory's parts, and the directory is removed |
| Stapler.XpiiStapler.StapleAndVerify | xpii-chain/core/stapler.py:34-153 | unpack, inject, pack and verify end in VERIFIED with the session id and the stored fingerprint |
| Agent.Depunctuate | xpii-chain/core/agent.py:213 | every character that is neither a word character nor whitespace becomes a space; the rest are kept |
| Agent.Collapse | xpii-chain/core/agent.py:214 | the result has no two adjacent spaces, starts with the input's first character when that is not whitespace, and with one space when it is |
| Agent.CollapseIsJoinedWords | xpii-chain/core/agent.py:214 | collapsing keeps the words of the text in order, one space between each two, plus one space for a leading run and one for a trailing run |
| Agent.CollapseWordFirst | xpii-chain/core/agent.py:214 | a text that starts with a word collapses to that word followed by the collapse of the rest |
| Agent.StripCollapseIsJoinedWords | xpii-chain/core/agent.py:214 | collapsing and then stripping gives the words joined by single spaces |
| Agent.Normalise | xpii-chain/core/agent.py:210-215 | the result is lowercase word characters and single spaces, with no leading or trailing space |
| Agent.NormaliseIsJoinedWords | xpii-chain/core/agent.py:210-215 | the normalised text is the words of the lowered, depunctuated text joined by single spaces |
| Agent.DepunctuatedLower | xpii-chain/core/agent.py:212-213 | after lowering and replacing punctuation, only lowercase word characters and whitespace remain |
| Agent.CollapsedWords | xpii-chain/core/agent.py:214 | collapsing whitespace runs leaves only lowercase word characters and spaces |
| Agent.StrippedCollapsed | xpii-chain/core/agent.py:214 | stripping a single-spaced text of words and spaces yields a normal form |
| Agent.CollapseSingleSpaced | xpii-chain/core/agent.py:214 | collapsing changes nothing in a text that is already single-spaced |
| Agent.NormalFormFixed | xpii-chain/core/agent.py:210-215 | a text already in normal form normalises to itself |
| Agent.NormaliseIdempotent | xpii-chain/core/agent.py:210-215 | normalising twice equals normalising once |
| Agent.KnowledgeBase | xpii-chain/core/agent.py:24-145 | the knowledge base pairs the ten keyword lists, in order, with their answers |
| Agent.Score | xpii-chain/core/agent.py:227 | the score is at most the number of keywords; it is 0 exactly when no keyword occurs and full exactly when all do |
| Agent.MaxScore | xpii-chain/core/agent.py:223-230 | the best score bounds every entry's score and is attained by one |
| Agent.Best | xpii-chain/core/agent.py:223-230 | there is no winner exactly when the best score is 0; otherwise the winner has the best score and every earlier entry scores less |
| Agent.AnswerFallback | xpii-chain/core/agent.py:232 | when every entry scores 0 the fallback is returned |
| Agent.AnswerEarliestMaximal | xpii-chain/core/agent.py:226-232 | the earliest entry with a positive maximal score supplies the answer |
| Agent.AnswerFallbackIff | xpii-chain/core/agent.py:232 | when no entry's answer is the fallback text, the fallback is returned exactly when every entry scores 0 |
| Agent.ScanStep | xpii-chain/core/agent.py:226-230 | one step of the scan replaces the best entry only on a strictly greater score |
| Agent.Answer | xpii-chain/core/agent.py:232 | the fallback when the best score is 0; otherwise the answer of an entry with the best score that no earlier entry reaches |
| Agent.Match | xpii-chain/core/agent.py:217-232 | the loop over the knowledge base returns the earliest maximal entry's answer, or the fallback when every score is 0 |
| Agent.Stamped | xpii-chain/core/agent.py:192 | the response is `[`, the timestamp, `] AGENT > ` and the answer, in that order |
| Agent.LocalAssistant.constructor | xpii-chain/core/agent.py:168-169 | a new assistant has an empty history |
| Agent.LocalAssistant.Respond | xpii-chain/core/agent.py:175-194 | the response is `[<ts>] AGENT > ` before the matched answer to the normalised input; exactly one (raw input, response) pair is appended |
| Agent.LocalAssistant.History | xpii-chain/core/agent.py:196-199 | returns the pairs in order |
| Agent.LocalAssistant.ClearHistory | xpii-chain/core/agent.py:201-203 | the history becomes empty |
| Text.TrimStart | xpii-chain/core/governance.py:185 | removes exactly the leading whitespace run |
| Text.TrimEnd | xpii-chain/core/governance.py:185 | removes exactly the trailing whitespace run |
| Text.Strip | xpii-chain/core/governance.py:185 | `strip()`: the result has no surrounding whitespace, is no longer than the input and holds only the input's characters |
| Text.StripOffset | xpii-chain/core/stapler.py:143 | the stripped text is the slice of the input at the returned offset, with only whitespace before and after it |
| Text.StripEmptyIff | xpii-chain/core/governance.py:185-186 | a string strips to empty exactly when it is all whitespace |
| Text.StripPadded | xpii-chain/core/stapler.py:143-146 | stripping whitespace padding around a trimmed text gives back that text |
| Text.Contains | xpii-chain/core/governance.py:193 | the empty pattern occurs in every string, and a pattern longer than the string never does |
| Text.ContainsIff | xpii-chain/core/governance.py:193 | `pat in s` holds exactly when `pat` occurs at some index of `s` |
| Text.ContainsChar | xpii-chain/core/stapler.py:142 | a one-character pattern occurs exactly when that character is in the string |
| Text.RemoveAll | xpii-chain/core/stapler.py:143-146 | `replace(pat, "")` never lengthens the string, keeps only its characters, and is the identity when the pattern is absent |
| Text.RemoveLeadingLabel | xpii-chain/core/stapler.py:143 | removing the label from `<label> <s> ` and stripping gives back `s`, when `s` is trimmed and holds no label |
| Text.RemoveInnerLabel | xpii-chain/core/stapler.py:145-146 | ` <label> <s>` contains the label, and removing it and stripping gives back `s` |
| Text.Split | xpii-chain/core/stapler.py:142 | `split("\|")` yields at least one part, none containing the separator, whose join is the input |
| Text.SplitJoin | xpii-chain/core/stapler.py:142 | splitting the join of separator-free parts gives back the parts |
| Text.Take | xpii-chain/core/stapler.py:84 | `s[:n]` is the prefix of length min(n, \|s\|) |
| Text.Upper | xpii-chain/core/stapler.py:84 | `upper()` maps each character |
| Text.Lower | xpii-chain/core/agent.py:212 | `lower()` maps each character |
| Text.WordsAreWords | xpii-chain/core/agent.py:214 | every piece `split()` yields is a non-empty run without whitespace |
| Text.WordLen | xpii-chain/core/agent.py:214 | the length of the leading run of non-whitespace characters, which ends at whitespace or at the end |
| Text.JoinedTrimmed | xpii-chain/core/agent.py:214 | words joined by single spaces neither start nor end with whitespace, and are empty only when there are no words |

## Left out

- Governance.AuditLog.Record: a context value is an integer, a string or a list of them (`Json`), which covers every call in the core (`xpii-chain/core/governance.py:226`, `:263`, `:272`). Booleans, `None`, floats and nested dicts are not representable, so `json.dumps` raising `TypeError` on a value it cannot serialise is not modelled.
- File system and zip I/O (`os.makedirs`, `shutil.rmtree`, `extractall`, `ZipFile` writing, `tree.write`). The package is a map from part path to content, and the working directory is a field holding that map.
- lxml parsing, serialisation and namespaces. A part is an abstract element tree (tag, attributes, text, children) or unparsable bytes. Tags are written with the namespace URI, so no prefix resolution is modelled. Re-serialising `document.xml` keeps its tree. lxml reads an empty element's text as `None`; the model keeps the text it was given.
- SHA-256, `json.dumps(sort_keys=True)` and `uuid.uuid4()`. These are opaque functions and parameters; the tamper lemmas state the hash inequality they need as a precondition. That a real digest is 64 lowercase hex characters is the `HexDigest` precondition of the round-trip lemmas.
- `datetime.now()`: every timestamp is a parameter.
- The threading lock and `threading.Event`: the classes are sequential.
- `print` calls, `AgentIdentity.to_dict` and `is_revoked`/`is_halted`, which only read fields.
- `_compute_sha256`, `file_hash` and the chunked file read in `pack`: they hash output bytes the model does not have.
- Stapler.XpiiStapler.Pack: the archive is the set of parts; the `os.walk` member order is not modelled.
- Stapler.XpiiStapler.Pack: when the working directory does not exist (pack called twice, or before unpack), the source writes an empty archive and then `shutil.rmtree` raises `FileNotFoundError`; the model returns the empty archive without an error.
- Stapler.Verify: an exception's message text is reduced to the exception's name (`BadZipFile`, `XMLSyntaxError`) in the `ERROR:` status.
- Agent.Normalise: word characters are ASCII letters, digits and `_`, plus every non-whitespace character at or above U+0080. This approximates Python's Unicode `\w`. Case folding is ASCII only.
- Governance.NoPathTraversalPolicy: the reason's `repr` of the path escapes quotes, backslashes and ASCII control characters as Python does; non-ASCII characters that Python prints as `\x`, `\u` or `\U` escapes are kept as they are.
- Agent.LocalAssistant: the answer texts of the knowledge base and the fallback are constructor parameters; the keyword lists are the source's own.
- Aliasing: `history` returns a new list of immutable tuples. `export` returns a shallow copy whose entry dicts are the log's own. `record` stores the caller's `context` dict by reference and returns the dict it stores, and `evaluate` returns the same failures list it logged. So in the source a caller can alter logged entries after the fact. The model passes values, and none of these aliases exist in it.
- Governance.AuditLog.Record: recording into a log whose entries were altered after the fact is not modelled, because Record, PolicyEngine.Evaluate, OperatorControl.Halt and OperatorControl.Resume require the log's `Valid()` invariant. Tampering is modelled on entry sequences by the tamper lemmas and on any contents by `VerifyChain`.
- Policy callables registered at run time are `Context -> Verdict` functions; a policy that raises or has side effects is not modelled.
