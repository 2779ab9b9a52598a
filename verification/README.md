# Verification of the client-side logic of levelrail

A Dafny model of the parts of levelrail that decide what is sent, kept or overwritten, with proofs about
them. `dafny verify dfyconfig.toml` checks everything. What the model covers:

- **Editing a resource** (`SpecPatch`, `JsonMergePatch`, `FieldPaths`, `FlatFields`, `ServerApply`,
  `ApplyRuns`, `ApplyOrder`, `EditSession`). `edit` diffs two nested documents into a patch; the server flattens it
  into escaped field paths, merges it under field ownership and rebuilds the document. The patch is characterised
  path by path as the changed leaves plus a null for every removed field. It is then merged in two ways: as a JSON
  merge patch (section 2 of RFC 7396), and through the server's own merge. For both the model says exactly when the
  merge gives back the edited document, and exactly when two edits can be saved in either order; over any sequence
  of applies the record of owners stays true to what was sent.
- **The agent's reconnect loop** (`Backoff`, `Agent`, `SaveIdentity`). The loop body is one turn in an
  environment that may cancel, expire, renew or rewrite the identity at any point; a run is any sequence of
  turns. Proved over all runs: no busy loop, a rate bound on dial attempts in every stretch of a run, certificate
  safety, and where every identity held came from.
- **Placeholders** (`Placeholders`, `ResolveVars`). The scan finds exactly the placeholders of the grammar;
  resolution is all or nothing and never asks the environment for more than it may.
- **The docs link script** (`TextEdits`, `PageParts`, `DocsLinks`, `FirstMentions`, `DocsRuns`,
  `BreakableMentions`). The nested loops are proved against functions on the text. Every inserted link can be taken
  out again to get the original text back, protected text is untouched, each target is linked at its first mention,
  repeated runs settle, and which existing mentions a run can break is told exactly.
- **Env diff, encoding negotiation, ETag cache, memory sizes, deploy timeline** (`EnvDiff`,
  `AcceptEncoding`, `EtagCache`, `MemorySizes`, `Timeline`, `TimelineBars`).

`Documents`, `Strings`, `Numbers` and `Wrappers` hold what the others share. `Binary64` is the arithmetic of CPU
shares and timeline columns: rounding to the nearest number of the binary64 format, halfway to the even one (section
4.3.1 of IEEE 754-2019), and conversion to 64-bit integers; `Binary64.ArithmeticExists` shows that there is one.

## What the proofs turned up

- The comment on `specChanges` says that untouched fields stay as the server has them. The server also drops
  a field that the same manager applied earlier and does not send now, and `edit` always applies as the same
  manager, so a second edit takes away what the first one set (`EditSession.SecondEditLosesThePort`).
  `EditSession.EditExact` gives the exact condition.
- Read as a JSON merge patch, an edit that empties an object is lost (`JsonMergePatch.EmptiedObjectStays`);
  `JsonMergePatch.MergeRoundTrip` gives the exact condition. The server's own merge does not have this gap.
- `acceptedEncodings` does not see a weight written `Q=`, which RFC 9110 allows
  (`AcceptEncoding.CapitalQIsMissed`, with the exact condition in `AcceptEncoding.HeaderRead`, and the effect on the
  file served in `AcceptEncoding.ServedByWeightsIff`).
- Two forced applies by different managers that touch disjoint fields commute, except where a claim on record
  names a field that is no longer stored (`ApplyOrder.StaleClaimCounts`); `EditSession.TwoManagersCommuteIff`
  gives the exact condition.
- `parseMemoryBytes` wraps silently from 2^63 bytes on (`MemorySizes.HugeSizeWraps`), and the swap check can
  then be passed by a swap limit below the memory limit (`MemorySizes.WrappedMemoryPassesTheCheck`). The check
  holds what it promises exactly for a memory limit that is refused or fits in 63 bits
  (`MemorySizes.SwapCheckedIff`).
- A CPU share written in billionths need not arrive as written: `cpu: 4.1` arrives as 4.099999999
  (`MemorySizes.CpuShareIsLost`). `MemorySizes.ShareArrivesIff` gives the exact condition; the loss is never more
  than one billionth.
- In a window of less than 64 nanoseconds the quotient that places a time may not fit the conversion to an integer, and
  a time after the window may then be drawn anywhere (`TimelineBars.NarrowWindowMayNot`, exact condition in
  `TimelineBars.ColumnEnds`). In windows up to 39 hours a time is drawn in exactly the column it falls into, in spite of
  two roundings (`TimelineBars.ColumnIsExact`).
- When `fetchTimeline` cuts the last page at the limit, no cursor may be left to say that deploys are missing
  (`Timeline.CutWithoutCursor`, exact condition in `Timeline.CursorTellsTheRest`).
- The docs script can break a link with a fragment whose text began on the line before, so a run can leave as many
  targets without a mention as there were before it (`DocsRuns.FragmentLinkBroken`). `DocsRuns.MentionedAfterRun`
  says exactly which mentions stay. `BreakableMentions.BreakableIff` says, from the page alone, for which targets some
  term search can break every mention, and `BreakableMentions.SafePagesConvergeIff` when that happens for none. The
  number of targets without a plain link falls with every changing run (`DocsRuns.StepLinksMore`,
  `DocsRuns.ChangingRunsEnd`).
- The comment on `resolveVars` lists `--var`, `--var-file` and the environment; the code also reads
  `--values`, between the first two. The model follows the code.
- The comment on `saveIdentityVerified` says the file is read back before the agent trusts it; only the node
  id is compared, so success can be reported with another certificate in the file
  (`SaveIdentity.OldCertificatePasses`, exact condition in `SaveIdentity.SavedIsWholeIff`).
- The comment on `open` says a file is hashed once; two calls that both look before either has stored the tag hash
  it twice (`EtagCache.HashedTwice`). A call hashes exactly if its file was not cached when it looked
  (`EtagCache.HashesIffNotCached`).

## Model

| member | source | states |
|---|---|---|
| SpecPatch.ComputeSpecChanges | cmd/levelrail-cli/apply_server_side.go:127-148 | the two loops over the maps, taken in an arbitrary order, always produce the one patch `SpecChanges` describes |
| SpecPatch.PatchEmptyIffEqual | cmd/levelrail-cli/resource_edit.go:214-218 | the patch is empty, and nothing is sent, exactly when the two documents are deeply equal |
| SpecPatch.PatchLeaves | cmd/levelrail-cli/apply_server_side.go:125-148 | at every path the patch holds the edited leaf if it changed, null if the field was removed from an object that stays, and nothing otherwise |
| SpecPatch.LostLeafIsTouched | cmd/levelrail-cli/apply_server_side.go:125-148 | every leaf of the original that the edit lost or changed lies on one line with something that is sent |
| SpecPatch.KeptLeafIsUntouched | cmd/levelrail-cli/apply_server_side.go:125-148 | nothing that is sent lies above or below an unchanged leaf |
| SpecPatch.UntouchedHasNoPatch | cmd/levelrail-cli/apply_server_side.go:125-148 | nothing is sent on the line of a path on which the documents agree, if above it they agree too or the object stays |
| SpecPatch.SilentIffUntouched | cmd/levelrail-cli/apply_server_side.go:125-148 | nothing is sent on the line of a path if and only if the edit left that path and the objects around it alone in that sense |
| JsonMergePatch.MergeRoundTrip | cmd/levelrail-cli/apply_server_side.go:125-148 | merging the patch into the original by RFC 7396 gives the edited document if and only if no changed leaf is null and no object that had fields is emptied |
| JsonMergePatch.EmptiedObjectStays | cmd/levelrail-cli/apply_server_side.go:134-139 | a concrete edit, emptying an object, that a merge patch does not carry |
| JsonMergePatch.MergeFrame | cmd/levelrail-cli/apply_server_side.go:125-126 | a path that no leaf of a patch shares a line with keeps its value, or its absence, on any target |
| JsonMergePatch.EditFrame | cmd/levelrail-cli/apply_server_side.go:125-126 | every path the edit left alone stays as the server has it, whatever extra or masked fields the server document holds, below an agreed scalar or empty object too |
| JsonMergePatch.CommuteIffCompatible | cmd/levelrail-cli/apply_server_side.go:127-148 | two patches give the same result in either order on every document exactly when they agree wherever both speak |
| JsonMergePatch.DisjointEditsCommute | cmd/levelrail-cli/apply_server_side.go:127-148 | two edits of one original whose patches touch disjoint paths commute on any server document |
| FieldPaths.EscapeRoundTrip | internal/api/v2_apply_merge.go:37-43 | unescaping an escaped key gives the key back, whatever tildes and slashes it holds |
| FieldPaths.WrittenPath | internal/api/v2_apply_merge.go:45-66 | a field is written below /spec with a slash before each key |
| FieldPaths.EscapedKey | internal/api/v2_apply_merge.go:37-39 | each tilde is written ~0, each slash ~1, every other character as it is |
| FieldPaths.EncodeInjective | internal/api/v2_apply_merge.go:45-75 | distinct fields are written as distinct paths |
| FieldPaths.OverlapsIffRelated | internal/api/v2_apply_merge.go:108-111 | the textual overlap test holds exactly when one field is the other or contains it |
| FieldPaths.DecodeEncode | internal/api/v2_apply_merge.go:89-92 | splitting and unescaping a written path gives back the field |
| FlatFields.FlatSpec.Set | internal/api/v2_apply_merge.go:113-122 | setting a path removes everything it overlaps and then holds the value, or only removes for null |
| FlatFields.FlatSpec.FlattenInto | internal/api/v2_apply_merge.go:55-75 | adds exactly the leaves of the value under its path, changing nothing else, and fails exactly on a mapping with a key that is not a string |
| FlatFields.FlattenSpec | internal/api/v2_apply_merge.go:45-53 | the flat form lists exactly the leaves of the document, empty objects and lists among them |
| Documents.StringKeyedIff | internal/api/v2_apply_merge.go:55-75 | flattening fails exactly if a mapping with a key that is not a string stands at some path |
| FlatFields.FlatOfWellFormed | internal/api/v2_apply_merge.go:45-75 | no key of a flattened document contains another |
| FlatFields.SetInLeaf | internal/api/v2_apply_merge.go:91-103 | putting a leaf into a nested document replaces everything on its line and no other leaf |
| FlatFields.UnflattenSpec | internal/api/v2_apply_merge.go:77-106 | the rebuilt document, its paths taken in order, has exactly the flat leaves that are not null |
| FlatFields.FlattenRoundTrip | internal/api/v2_apply_merge.go:45-106 | taking a document apart and rebuilding it is the identity exactly when it holds no null field |
| ServerApply.SsaMerge.FindConflicts | internal/api/v2_apply_merge.go:142-154 | reports a field of another manager once for each sent path that is it, contains it or is contained in it, except a value at the very path that is not a removal and is equal as JSON; so it lists exactly what stands in the way, and none of the applier's own fields |
| ServerApply.SsaMerge.Run | internal/api/v2_apply_merge.go:141-196 | refuses exactly if there is no force and another manager holds a field that is, contains or is contained in a sent one, unless it is that very field with a value equal as JSON, and lists all of these by path and manager; so an apply is accepted where every owner is the applier; then every path holds what was sent, or the current value unless something sent or dropped overlaps it, and the owners on record are exactly the surviving ones |
| ServerApply.SsaMerge.OwnersAreLive | internal/api/v2_apply_merge.go:183-195 | every field on record after an apply is present in the merged document |
| ServerApply.SsaMerge.MergedPathsApart | internal/api/v2_apply_merge.go:165-181 | merging keeps the paths of the flat form free of containment |
| ServerApply.SsaMerge.UnforcedKeepsOthers | internal/api/v2_apply_merge.go:146-181 | an accepted apply without force keeps every field another manager holds, with its value and its owner, if the fields on record are there |
| ServerApply.SsaMerge.SharingMeansAgreeing | internal/api/v2_apply_merge.go:207-219 | after an apply, another manager shares a field with the applier only at the same path and with the value it already had |
| EditSession.MergedLeaf | internal/api/v2_apply_merge.go:165-181 | each leaf of the rebuilt document comes from the patch, or from the server document unless something on its line was sent or dropped |
| EditSession.EditExact | cmd/levelrail-cli/resource_edit.go:214-228 | the saved document is the edited one if and only if no edited field is null and no unsent earlier claim of the same manager covers a field the edit left alone |
| EditSession.ServerFrame | cmd/levelrail-cli/apply_server_side.go:125-126 | through the server's merge, a leaf on a path the edit left alone stays and a gap there stays a gap, whatever else the server holds, unless an earlier claim is dropped |
| EditSession.NextEditDropsEarlierField | internal/api/v2_apply_merge.go:169-178 | any leaf set by one edit and left alone by the next one of the same manager is removed by it, if nobody else holds it |
| EditSession.SaveEdit | cmd/levelrail-cli/resource_edit.go:214-228 | diff, flatten, forced merge and rebuild in sequence; nothing is sent exactly when nothing changed, and the result meets `EditExact` |
| ApplyRuns.RecordHolds | internal/api/v2_apply_merge.go:141-219 | over any sequence of accepted applies by any managers, starting without a record, every field on record is stored and holds the value that its manager's latest apply sent, or one equal to it as JSON |
| ApplyRuns.RecordApart | internal/api/v2_apply_merge.go:141-219 | over any such sequence, fields on record never contain one another, and managers who share one last sent values equal as JSON |
| ApplyRuns.NextKeepsOthers | internal/api/v2_apply_merge.go:141-219 | after any such sequence, an apply without force that is not refused leaves every field of the other managers its value and its owner |
| ApplyRuns.ApplyAgain | internal/api/v2_apply_merge.go:141-154 | a manager who alone made all the applies to a spec is never refused |
| ApplyOrder.InTurnAt | internal/api/v2_apply_merge.go:160-196 | what is stored at each path after two forced applies in turn, in terms of the spec and the record both set out from |
| ApplyOrder.OrderDoesNotMatterIff | internal/api/v2_apply_merge.go:160-196 | two forced applies by different managers that send nothing on one line leave the same spec in either order if and only if no stored field that neither sends nor gives up lies on the line of a stale claim of just one of them |
| ApplyOrder.LiveClaimsCommute | internal/api/v2_apply_merge.go:160-196 | so they do whenever every field on record is stored |
| ApplyOrder.StaleClaimCounts | internal/api/v2_apply_merge.go:141-219 | a concrete record with a stale claim and the two outcomes: a variable is removed in one order and stays in the other |
| EditSession.TwoManagersCommuteIff | internal/api/v2_apply_merge.go:141-196 | the same for documents: two patches on disjoint paths, flattened, merged by force and rebuilt one after the other |
| EditSession.SecondEditLosesThePort | internal/api/v2_apply_merge.go:169-178 | a concrete pair of edits of which the second removes the field set by the first |
| Backoff.NextReconnect | cmd/levelrail-agent/reconnect.go:11-19 | after a session of 60 seconds or from a delay below one second the wait is 1 to 1.5 seconds and the next delay 2 seconds; otherwise the wait lies between the delay and half as much again, and the next delay is the double, at most 30 seconds |
| Backoff.WaitsSpread | cmd/levelrail-agent/reconnect.go:11-19 | every wait in that range is possible, so agents that fail together need not return together |
| Backoff.AttemptPays | cmd/levelrail-agent/reconnect.go:12-19 | from each delay of the ladder, session and wait together pay 18 seconds for one attempt, up to the change in a bounded debt |
| Agent.ReconnectLoop.AdoptIdentityFromDisk | cmd/levelrail-agent/main.go:226-234 | takes over the identity on disk exactly when it can be read, is unexpired and has another certificate, and changes nothing else |
| Agent.ReconnectLoop.TurnOnce | cmd/levelrail-agent/main.go:183-219 | one pass through the loop body has the effect and outcome of `Step` |
| Agent.ReconnectLoop.Loop | cmd/levelrail-agent/main.go:182-220 | the loop over any script of environment turns produces exactly the run `Run` describes |
| Agent.RunDoes | cmd/levelrail-agent/main.go:183-219 | in every turn of every run: which identity is dialled, which one is held in the end, when the one on disk takes over after the session, and how long the wait is, told in dates and nanoseconds |
| Agent.HealthySessionRestarts | cmd/levelrail-agent/main.go:208-210 | in every turn of every run that ends in a wait, a session of a minute restarts the backoff, whatever the delay was |
| Agent.RunAdopts | cmd/levelrail-agent/main.go:188-206 | over any run the adoptions number at most the changes made from outside, plus one if disk and memory differed at the start |
| Agent.NoBusyLoop | cmd/levelrail-agent/main.go:199-203 | over any run the turns that skip the wait number at most one plus the changes made from outside |
| Agent.AttemptRate | cmd/levelrail-agent/main.go:182-219 | in every stretch of every run, healthy and short sessions mixed, the attempts cost 18 seconds each but for a constant and 77 seconds a change from outside |
| Agent.WaitsClimb | cmd/levelrail-agent/main.go:208-218 | in a row of short sessions the k-th wait is at least the k-th doubling, capped at 30 seconds, and at most 45 |
| Agent.WaitsFollowClimb | cmd/levelrail-agent/main.go:208-218 | while every turn dials and no session is long, the k-th wait is at most half above the k-th doubling |
| Agent.ShortSessionRate | cmd/levelrail-agent/main.go:182-219 | from the first turn on the k-th wait is at least min(2^k, 30) seconds, at most half above it while every turn dials, and from the fifth on n attempts take at least 30n - 119 seconds |
| Agent.RunIsSafe | cmd/levelrail-agent/main.go:188-218 | in every turn of every run a session starts only with an identity unexpired at its check, a wait lasts from one to 45 seconds, thirty at least after a turn that did not dial and had no long session, and the delay is one of six values |
| Agent.HeldComesFrom | cmd/levelrail-agent/main.go:188-234 | the identity held after any number of turns, and every identity dialled with, is the one the run began with, or was renewed or read unexpired from disk in one of those turns |
| Agent.NewIdentityIsUsed | cmd/levelrail-agent/main.go:199-206 | after a refusal or an expiry, an identity renewed on disk is the one the very next turn dials with, without a wait and from the shortest delay |
| SaveIdentity.SaveVerified | cmd/levelrail-agent/main.go:338-359 | reports success exactly when one of four attempts, reached without cancellation, wrote and read back the same node id; otherwise the fault of the fourth; half a second is waited before the second, one before the third, one and a half before the fourth |
| SaveIdentity.SavedIsWholeIff | cmd/levelrail-agent/main.go:352-355 | reported success means that the whole identity was read back, if and only if nothing else that can stand in the file has its node id |
| SaveIdentity.OldCertificatePasses | cmd/levelrail-agent/main.go:352-355 | success is reported with another certificate of the node in the file |
| Placeholders.ParseExact | cmd/levelrail-cli/apply_input.go:32 | there is at most one way to read a placeholder at a position, and the scanner finds it exactly when the grammar has one there |
| Placeholders.NoOverlap | cmd/levelrail-cli/apply_input.go:32 | no two placeholders of a line overlap |
| Placeholders.FindAll | cmd/levelrail-cli/apply_vars.go:168-173 | the left-to-right scan returns every placeholder of the line, in order, and nothing else |
| Placeholders.GrammarSpelled | cmd/levelrail-cli/apply_input.go:32 | the texts that are placeholders, character by character |
| Placeholders.CommentIs | cmd/levelrail-cli/apply_vars.go:164-167 | the lines passed over are those with a hash sign after nothing but white space |
| Placeholders.PlaceholderNames | cmd/levelrail-cli/apply_vars.go:159-178 | exactly the names that occur outside comment lines, strictly sorted |
| ResolveVars.ParseAllowEnv | cmd/levelrail-cli/apply_vars.go:55-71 | the loops over values and entries read the entries one after the other, stopping at the first bad one |
| ResolveVars.EntriesAreCut | cmd/levelrail-cli/apply_vars.go:60-63 | the values of the flag are read in order, each cut at its commas |
| ResolveVars.EntriesSpelled | cmd/levelrail-cli/apply_vars.go:64-70 | which entries are names and which wildcards, character by character |
| ResolveVars.EntriesAreRead | cmd/levelrail-cli/apply_vars.go:55-71 | the flag is refused exactly when some entry is neither a name nor a wildcard, and otherwise the allowlist holds what the entries say and no more |
| ResolveVars.Permits | cmd/levelrail-cli/apply_vars.go:73-88 | a name is permitted exactly when listed in full, or covered by a wildcard and not like a credential, with the reason otherwise |
| ResolveVars.CredentialsSpelled | cmd/levelrail-cli/apply_vars.go:25-49 | the names that are like a credential, by the five names, ten prefixes and nine words, in any case |
| ResolveVars.CredentialsAreNamedExactly | cmd/levelrail-cli/apply_vars.go:30-31 | a permitted name that looks like a credential was named in full by some entry |
| ResolveVars.ReadValuesFile | cmd/levelrail-cli/apply_vars.go:90-117 | succeeds exactly when every key is a name, does not look like a credential and has a scalar, and then keeps them all |
| ResolveVars.Resolve | cmd/levelrail-cli/apply_vars.go:183-240 | fails on a bad var file, then a bad values file, then a bad allowlist entry; otherwise fills all names that occur or, if one has no value, none. A flag gives the value; else the last values file that has the name, whatever the var files and the environment hold; else the last var file; else the environment, if it may be asked. Each missing name is reported once with the reason, and the environment is asked for no other names than these |
| ResolveVars.LastVarFileWins | cmd/levelrail-cli/apply_vars.go:184-193 | among the var files the last one that has the name decides |
| ResolveVars.LastValuesWins | cmd/levelrail-cli/apply_vars.go:194-203 | among the values files the last one that has the name decides |
| ResolveVars.OnlyAskedNamesMatter | cmd/levelrail-cli/apply_vars.go:14-16 | environments that agree on the names that may be asked for fill every placeholder alike, and a credential-like name is asked for only when named in full |
| TextEdits.EraseEdited | scripts/link-docs-terms.py:61-64 | deleting the inserted brackets and targets, last first, gives back the text exactly |
| TextEdits.EditedLinks | scripts/link-docs-terms.py:47-64 | inserting links never breaks a plain link already there, and every inserted target is linked |
| PageParts.PieceEndExact | scripts/link-docs-terms.py:48-56 | reading at a position finds a fence, or a code span, link or bold span, exactly when one begins there, and there is at most one |
| PageParts.PiecesSpelled | scripts/link-docs-terms.py:48-56 | the texts of the two patterns, character by character |
| PageParts.SplitExact | scripts/link-docs-terms.py:48-56 | there is one way to cut a text into pieces of a pattern and text in which none begins, and the leftmost search finds it |
| PageParts.SplitFences | scripts/link-docs-terms.py:48 | every other part is a fenced block, no block begins in the prose between them, and together they are the body |
| PageParts.SplitSpans | scripts/link-docs-terms.py:56 | every other segment is a code span, link or bold span, none begins in the plain text between them, and together they are the line |
| DocsLinks.PageRewriter.RewriteSeg | scripts/link-docs-terms.py:57-64 | the loop over the terms, with n the size of done, rewrites one plain segment as `SegRun` says: term by term, the first match linked if the target can still be |
| DocsLinks.PageRewriter.RewriteLine | scripts/link-docs-terms.py:52-65 | a line whose first character after white space is one of # < | > !, or with href= in it, stays and links nothing; of the others every other piece is rewritten in place, as `LineRun` says |
| DocsLinks.PageRewriter.RewriteProse | scripts/link-docs-terms.py:51-66 | the lines are rewritten one by one with one set of links made, and joined again |
| DocsLinks.PageRewriter.RewriteBody | scripts/link-docs-terms.py:48-66 | the nested loops over parts, lines and segments compute `BodyRun`, starting with no link made |
| DocsLinks.BodyEdits | scripts/link-docs-terms.py:48-66 | a run is one insertion of a link for each target it links, on a whole phrase; taking them out again gives back the body |
| FirstMentions.BodyDone | scripts/link-docs-terms.py:50-64 | the nested loops visit the plain segments of the page in order |
| FirstMentions.FirstMentionLinked | scripts/link-docs-terms.py:57-64 | a target is linked if and only if some plain segment holds a term for it, in the form it has when that term is looked for, with room left on the page; and it is linked at the first such place |
| FirstMentions.LinkedThere | scripts/link-docs-terms.py:61-64 | there the first match becomes the link and nothing else changes |
| FirstMentions.NothingLeft | scripts/link-docs-terms.py:57-64 | no plain segment held a term for a target that can still be linked after the run |
| FirstMentions.SpansStay | scripts/link-docs-terms.py:56-57 | code spans, links and bold spans stay |
| FirstMentions.ProtectedLinesStay | scripts/link-docs-terms.py:52-54 | lines that begin, after white space, with one of # < | > !, and lines with href= in them, stay on every page |
| FirstMentions.MarkedLineStays | scripts/link-docs-terms.py:53-54 | any white space, one of the five characters and any rest: the line comes out as it was and links nothing |
| FirstMentions.HrefLineStays | scripts/link-docs-terms.py:54 | so does any line with href= in it |
| FirstMentions.OtherLineChanges | scripts/link-docs-terms.py:52-65 | every other line changes if its plain text holds a term whose target can still be linked |
| FirstMentions.FencesStay | scripts/link-docs-terms.py:48-50 | fenced code stays |
| FirstMentions.QuietIffUnchanged | scripts/link-docs-terms.py:48-67 | nothing is linked if and only if no plain text holds a term that may be linked, and exactly then the page comes out as it was |
| DocsRuns.RunPage | scripts/link-docs-terms.py:47-68 | a run links at most eight targets, each once and at its first mention, none of them mentioned before or the page itself, and misses none unless eight were linked; erasing them gives back the body; existing plain links stay; nothing is linked, and nothing changes, if and only if no plain text holds a term that may be linked |
| DocsRuns.MentionSpelled | scripts/link-docs-terms.py:47 | the texts that count as a link to a target, character by character |
| DocsRuns.MentionedAfterInsert | scripts/link-docs-terms.py:47-62 | after an insertion a target is mentioned if and only if it is the one inserted or some mention of it does not have the insertion inside its fragment |
| DocsRuns.MentionedAfterRun | scripts/link-docs-terms.py:47-64 | after a run a target is mentioned if and only if it was linked or some mention of it was left whole by all insertions |
| DocsRuns.UnmentionedAfterRun | scripts/link-docs-terms.py:47-64 | a run takes exactly the targets it links from those not mentioned and adds exactly those whose mentions it broke |
| BreakableMentions.CountAfterInsert | scripts/link-docs-terms.py:47-62 | an insertion takes away exactly the one mention of another target in whose fragment it lies, if there is one, and makes none |
| BreakableMentions.BreakableIff | scripts/link-docs-terms.py:47-68 | a run can break all mentions of a target, for some term search, if and only if each of them carries a fragment and lies in plain text, and there are no more of them than a run can make links on the page |
| BreakableMentions.SafePagesConvergeIff | scripts/link-docs-terms.py:47-68 | the number of targets not mentioned falls by the number linked, for every term search, if and only if no target is breakable in that sense |
| DocsRuns.StepLinksMore | scripts/link-docs-terms.py:47-68 | a run that changes the page raises the number of targets with a plain link by the number it added |
| DocsRuns.ChangingRunsEnd | scripts/link-docs-terms.py:47-68 | there are never more changing runs on a page than there are targets not yet linked |
| DocsRuns.FragmentLinkBroken | scripts/link-docs-terms.py:47-64 | a concrete page and a run on it that links one target, takes away the only mention of another, and so leaves as many without a mention as before |
| EnvDiff.DiffEnv | cmd/levelrail-cli/apps_env_diff.go:31-71 | a key is listed for one app exactly if only that one has it, and as differing exactly if both have it and it is secret on one side only, or on neither with different values; the rest are counted as the same; an entry shows the values of the two apps unless it is secret, each list strictly sorted |
| EnvDiff.NothingDiffers | cmd/levelrail-cli/apps_env_diff.go:31-71 | an app compared with itself lists nothing and counts every key as the same |
| EnvDiff.CountsAddUp | cmd/levelrail-cli/apps_env_diff.go:52-69 | the lengths of the three lists and the count of equal keys add up to the number of keys of the four inputs |
| EnvDiff.ListsAreExact | cmd/levelrail-cli/apps_env_diff.go:52-69 | each list holds exactly the entries of the keys of its bucket, strictly sorted, and no value of a key secret on either side |
| EnvDiff.DiffMirrors | cmd/levelrail-cli/apps_env_diff.go:31-71 | swapping the two apps gives the mirror image |
| EnvDiff.SecretsDoNotShow | cmd/levelrail-cli/apps_env_diff.go:28-30 | no change to the values of keys that are secret on either side changes the result |
| AcceptEncoding.AcceptedEncodings | web/static.go:65-82 | the loop over the elements collects them in order, a later one replacing an earlier |
| AcceptEncoding.HeaderRead | web/static.go:65-82 | a header rendered by RFC 9110 is read as exactly its codings, each accepted as its weight says if and only if none is refused with a capital Q |
| AcceptEncoding.WeightIsRead | web/static.go:74-80 | whatever follows a small q and an equals sign is handed to the number parser, and what that does not read is no refusal |
| AcceptEncoding.CapitalQIsMissed | web/static.go:74-78 | a concrete header that refuses Brotli and is read as accepting it |
| AcceptEncoding.ChooseVariant | web/static.go:91-96 | Brotli if accepted and present, else gzip if accepted and present, else the plain file |
| AcceptEncoding.Serve | web/static.go:84-97 | the choice is made for names with a compressible extension, in any case; any other name is served as it is |
| AcceptEncoding.CompressibleNames | web/static.go:29-34 | the compressible names are those that end in one of ten extensions, in any case, and a name without an extension is not one |
| AcceptEncoding.ServedByWeightsIff | web/static.go:65-97 | for a header as RFC 9110 writes it, the file served is the one its weights ask for among those present, if and only if no coding refused with a capital Q has a file that is looked at before an acceptable one is found |
| EtagCache.StepKeepsGood | web/static.go:122-152 | every atomic step of any call keeps every cached tag and every call in progress right |
| EtagCache.FaultsFail | web/static.go:122-152 | a call fails exactly if its file is missing or its opening, reading or seeking fails, and only a call that has hashed and rewound stores a tag |
| EtagCache.ReachableIsGood | web/static.go:120-152 | under any interleaving of any calls every cached tag is its file's own |
| EtagCache.CallsAgree | web/static.go:120-152 | every returned call gives its file's own tag, now cached, and a reader at the start of the whole file; calls for equal content give equal tags |
| EtagCache.CallFinishes | web/static.go:122-152 | a call for an existing file that meets no fault returns after at most six of its own steps, whatever the other calls do |
| EtagCache.HashesIffNotCached | web/static.go:137-148 | in any run a call hashes its file in its next step if and only if the file was not cached when it looked |
| EtagCache.HashesOnce | web/static.go:137-148 | no call hashes twice |
| EtagCache.LateCallsDoNotHash | web/static.go:120-152 | once a call for a file has returned, no call that looks after that hashes it |
| EtagCache.HashedTwice | web/static.go:120-152 | for every file there is a run in which two calls both hash it |
| MemorySizes.ParseMemoryBytes | cmd/levelrail-cli/apps_create.go:648-668 | the loop and the 64-bit multiplications give what the digits and the unit mean, wrapped to 64 bits |
| MemorySizes.PrintedSizeRoundTrip | cmd/levelrail-cli/apps_create.go:648-668 | a printed number with Mi or Gi is read as exactly that many bytes if and only if they fit in 63 bits, and refused only when the number alone does not fit |
| MemorySizes.UnitsSpelled | cmd/levelrail-cli/apps_create.go:660-664 | Mi stands for 1048576 and Gi for 1073741824 bytes |
| MemorySizes.FaultsSpelled | cmd/levelrail-cli/apps_create.go:653-667 | which fault a refused text has: no number or no unit, a number that does not fit, or another unit |
| MemorySizes.HugeSizeWraps | cmd/levelrail-cli/apps_create.go:660-664 | 2^43 mebibytes are read as a negative number |
| MemorySizes.OnlyTheseUnits | cmd/levelrail-cli/apps_create.go:653-667 | nothing is accepted but digits directly followed by Mi or Gi |
| MemorySizes.ToServiceResources | cmd/levelrail-cli/apps_create.go:543-571 | the limits planned from the two size texts, the CPU share and the CPU set, or the fault of the first size that fails, or none without resources |
| MemorySizes.CpuShareIsClose | cmd/levelrail-cli/apps_create.go:555-557 | a share between n and n + 1 billionths of a CPU arrives as one of the two, for any rounding to binary64 and up to 2^53 billionths |
| MemorySizes.ShareArrivesIff | cmd/levelrail-cli/apps_create.go:555-557 | a share written as n billionths, up to 2^52 of them, arrives as n if and only if the product of its nearest binary64 number and 10^9 falls short of n by at most half a unit in the last of 53 binary places of n, and as n - 1 otherwise |
| MemorySizes.NegativeShareArrivesIff | cmd/levelrail-cli/apps_create.go:555-557 | the same for a negative number of billionths, on the other side of zero |
| MemorySizes.CpuShareIsLost | cmd/levelrail-cli/apps_create.go:555-557 | 4.1 CPUs arrive as 4099999999 billionths |
| MemorySizes.LimitsAreExact | cmd/levelrail-cli/apps_create.go:548-568 | for any texts a limit is stored exactly if and only if it fits in 63 bits; where both fit, the plan is refused exactly when swap is given and below memory |
| MemorySizes.SwapCheckedIff | cmd/levelrail-cli/apps_create.go:563-566 | every swap limit accepted beside a memory limit is at least as large, if and only if the memory limit is refused or fits in 63 bits |
| MemorySizes.WrappedMemoryPassesTheCheck | cmd/levelrail-cli/apps_create.go:563-566 | beyond 63 bits a swap limit below the memory limit passes |
| Timeline.FetchTimeline | cmd/levelrail-cli/apps_deploys_timeline.go:62-81 | for any paging server, failing requests included, the items shown are a prefix of its stream and at most the limit; the requests made, the cursor left and the reason for stopping are exact |
| Timeline.FetchFull | cmd/levelrail-cli/apps_deploys_timeline.go:48-81 | with full pages no request fails and all of the first min(limit, total, 2000) items are shown |
| Timeline.CursorTellsTheRest | cmd/levelrail-cli/apps_deploys_timeline.go:142-144 | a cursor is left exactly when items are missing, if and only if the stream does not end between the limit and the end of its last page |
| Timeline.CutWithoutCursor | cmd/levelrail-cli/apps_deploys_timeline.go:71-79 | of 300 deploys 250 are shown without a cursor |
| TimelineBars.ColumnMonotone | cmd/levelrail-cli/apps_deploys_timeline.go:104-107 | a later time is never drawn further left in binary64 arithmetic, if both places fit the conversion to an integer |
| TimelineBars.WideWindowConverts | cmd/levelrail-cli/apps_deploys_timeline.go:104-107 | in windows of 64 nanoseconds or more every place fits, also for times far outside |
| TimelineBars.NarrowWindowMayNot | cmd/levelrail-cli/apps_deploys_timeline.go:104-107 | a concrete time whose place in a window of one nanosecond does not fit |
| TimelineBars.ColumnEnds | cmd/levelrail-cli/apps_deploys_timeline.go:104-107 | times up to the start of the window are drawn in the first column and times from its end on in the last, whatever the conversion makes of numbers that do not fit, if and only if the place fits |
| TimelineBars.ColumnIsExact | cmd/levelrail-cli/apps_deploys_timeline.go:104-107 | in windows up to 2^47 nanoseconds a time is drawn in the column it falls into, edges included, in binary64 arithmetic |
| TimelineBars.ColumnIsClose | cmd/levelrail-cli/apps_deploys_timeline.go:104-107 | in windows up to 2^53 nanoseconds a time misses the column it is drawn in by less than the 2^-47th part of a column |
| TimelineBars.ColumnWithinANanosecond | cmd/levelrail-cli/apps_deploys_timeline.go:104-107 | in windows up to 30 days, the longest the server gives, by less than a nanosecond |
| TimelineBars.TimelineBar | cmd/levelrail-cli/apps_deploys_timeline.go:97-118 | forty columns with one contiguous run from the start column to the end column, up to the last column for a deploy that still runs, not empty when the window has 64 nanoseconds and the deploy does not end before it starts |

## Left out

- Command shells, flag parsing, HTTP and file access: a file or request that can fail appears as a value that may be missing.
- YAML decoding: documents are decoded values, and a scalar is its tag and canonical text, so `.nan` equals itself in the diff. What a value becomes as JSON is any function, which may refuse a value.
- FlatFields.UnflattenSpec: the original fills nested maps in place; the model rebuilds values, so it has no aliasing.
- The IaC plan and apply after the merge, restoring of masked environment values, and the resource version check.
- Agent enrolment, re-enrolment and the renewer's own schedule: a renewal is a change the environment makes at the start of a turn or during a session.
- Agent.ReconnectLoop.Loop: runs a finite script; an endless run is covered by its prefixes. A session is assumed to end with an error, as every return of `RunSession` gives one.
- ResolveVars: the text of a var file is taken as already parsed, and the wording of the error is reduced to its reason.
- ResolveVars: upper-casing is modelled on ASCII letters.
- DocsLinks: the search for one term is a function that returns a whole phrase, without markup in it and not preceded by a word or path character, as every term pattern does; front matter, file discovery and the term table are not modelled.
- BreakableMentions.BreakableIff: the search is any function that returns whole phrases; the patterns of the script are some of these, so a page that is safe for all is safe for them.
- AcceptEncoding: the number parser is any function that is right about the qvalues of RFC 9110.
- EtagCache: the digest is any function of the bytes.
- MemorySizes.ToServiceResources: a share is a number, not `.nan` or `.inf`; what a product that does not fit in 64 bits becomes is left open, as the language leaves it; the read-only root setting is added elsewhere.
- Content types, cache headers and the routing of precompressed files.
