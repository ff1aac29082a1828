# Reinhardt: verified models of the framework's core logic

This project models parts of the Reinhardt web framework in Dafny and proves properties of the models.
Each module follows one source file or one self-contained part of it. Code that changes state step by
step is a class or a method with loops, proved against a specification function; what the code is meant
to guarantee is proved about that function, for all inputs, all runs or all interleavings.

| modules | models |
|---|---|
| `Validation`, `Walks` | foreign-key cycle detection: a depth-first search whose sets survive from one start node to the next |
| `OAuth2` | the authorization-code grant (sections 4.1.2 and 4.1.3 of RFC 6749), as classes and as a transition system of concurrent tasks |
| `ItemScanner`, `ItemTokens`, `LanguageItems`, `MigrateV2`, `MigrateLines`, `MigrateLayout`, `MigrateLeftovers` | the format-preserving codemod: byte scanner, what the language calls an item, backward walk, splicer, which lines go with an item, and the splicer on whole files |
| `GroupManagement` | groups, permissions and memberships in four linked maps |
| `Registry`, `Discovery`, `Decimal`, `Strings` | model registry, lazy caches, reverse relations, migration file names |
| `Apps` | the application registry's life cycle and the application builder |
| `Cookies`, `Sessions` | session login and logout, and the cookie that carries the session id (section 4.2.1 of RFC 6265) |
| `TokenAuthentication` | tokens and their digest index |
| `IpPermission`, `Bits` | CIDR ranges over 32 and 128 bits (section 3.1 of RFC 4632) |
| `ProcessTree` | the post-order listing of a process tree |
| `Changelog`, `ChangelogBlock`, `ChangelogRender`, `ChangelogInject`, `ChangelogAggregate`, `ChangelogRoundTrip`, `ChangelogReread`, `ChangelogReading`, `ChangelogWriting` | the changelog aggregator, from parsing to the second run, its block read again, and what is read and written character by character |
| `Sequences`, `Wrappers` | shared vocabulary |

What the environment supplies is a parameter: clocks (nanoseconds), fresh identifiers, digests, case
mapping and character classes, address parsing, regular expressions, formatted source items, the process
table. Maps that the source keeps behind locks are fields; where tasks interleave at those locks
(`OAuth2`, `Sessions`) the model has one step for each acquisition.

Where the code and its documentation differ, the model follows the code:

- A `CircularRelationship` is documented to carry the cycle path (`crates/reinhardt-apps/src/validation.rs:31-35`).
  A report after the first can be a single node that merely reaches a cycle, because the early return at
  lines 214-216 leaves `rec_stack` populated. `SecondReportIsNoCycle` gives the input;
  `AllCyclesExactly` gives the graphs for which every report is a cycle, whatever the order of the starts.
  Nor is every cycle reported: `MissedCycle` gives a graph in which one never is, `CycleReportedExactly` says
  which are.
- `find_item_end_offset` is documented to skip string and character literals
  (`crates/reinhardt-admin-cli/src/migrate_v2.rs:215-219`). It never skips a raw string without hashes
  (`HashlessRawStringNotSkipped`); `RawStringSkipped` and `CharLiteralSkipped` say exactly which other raw
  strings and which character literals it skips; `QuotedLetterHidesSemicolon` shows what follows from that.
  It is documented to skip comments too; `NestedCommentSkipped` says which comments it skips whole.
- It is documented to handle block-delimited and semicolon-terminated items (same lines). It ends an item at the
  first closed brace group and at the first semicolon outside braces. Of `use a::{b, c};` it finds all but the
  semicolon, of `fn f(x: [u8; 3]) {}` only what ends in `[u8;`; when such an item changes, the rest of the old one
  stays behind the new text (`BracedUseLeavesSemicolon`, `ArrayParameterLeavesRest`). `FoundWholeExactly` says which
  items are found whole: those in which no closing brace and no semicolon stands before the item's own semicolon, or
  before its block. `SplicesLaidOut` says what the output of a whole file is, and when it is the one wanted.
- `get_reverse_relations_for_model` is documented to return the relations of a specific model
  (`crates/reinhardt-apps/src/registry.rs:518`), but it looks short names up: `auth.User` and `shop.User` share an
  entry. `FindsOneModelsExactly` says when a model's entry is its own.
- Tokens are issued with a lifetime of 3600 seconds, and a token that is not found is taken to be "not found or
  expired" (`crates/reinhardt-auth/src/oauth2.rs:344`, line 386). No token expires: `TokensNeverExpire`.
- `split_breaking` is documented only to move bullets. It loses untagged bullets that already stand under
  "Breaking Changes" (`UntaggedBreakingIsLost`); `SplitConserves` says exactly when nothing is lost.
- Population is meant to skip apps that are registered already (`crates/reinhardt-apps/src/apps.rs:512`), but it
  looks installed names up among the labels. An app registered under a label other than its name is configured
  a second time, and its name then leads to the second configuration (`RegisteredNameLeadsAway`);
  `NameKeptExactly` says when a name keeps leading where it did, and `Build` says it of a built application.
- `clear_cache` is documented to clear all cached data (`crates/reinhardt-apps/src/apps.rs:578`). It leaves finalized
  reverse relations in place; `RepopulatesExactly` and `ClearedForGood` say when a population can succeed again.

## Model

| member | source | states |
|---|---|---|
| Validation.BuildGraph | crates/reinhardt-apps/src/validation.rs:164-171 | the adjacency map holds exactly the foreign keys, each model's targets in registration order; models without one are no keys |
| Validation.EdgesExactly | crates/reinhardt-apps/src/validation.rs:164-171 | one model refers to another if and only if a foreign key from the one to the other is registered, and no many-to-many or one-to-one relationship counts |
| Validation.CycleSearch.DetectCycle | crates/reinhardt-apps/src/validation.rs:189-223 | without a cycle, path and stack are restored and the node is finished; with one, path, stack and report are those of the trail through the first neighbours that reach a cycle; calls are bounded by the edges expanded |
| Validation.CycleSearch.SearchFrom | crates/reinhardt-apps/src/validation.rs:177-183 | a start is reported if and only if a cycle is reachable from it, whatever earlier starts left on the stack |
| Validation.CheckCircularRelationships | crates/reinhardt-apps/src/validation.rs:161-186 | for any order of the starts: reports are a function of that order, non-empty if and only if the foreign-key graph is cyclic, one for each model that reaches a cycle; at most models plus foreign keys calls |
| Validation.ReportsAreValid | crates/reinhardt-apps/src/validation.rs:177-223 | for every order: the first report is a simple cycle, every report is a simple cycle or one node that reaches a cycle, no node lies in two reported cycles |
| Validation.TrailIsValid | crates/reinhardt-apps/src/validation.rs:189-223 | what one search reports is a simple cycle apart from the abandoned nodes, or one abandoned node; everything it leaves on the stack reaches a cycle |
| Validation.ClosesOwnPath | crates/reinhardt-apps/src/validation.rs:196-202 | from the first occurrence of the repeated node on, the path is a simple cycle |
| Validation.AllCyclesExactly | crates/reinhardt-apps/src/validation.rs:161-223 | every report is a genuine cycle, for any order of the starts, if and only if each model that reaches a cycle has itself as its first neighbour that does |
| Validation.CycleReportedExactly | crates/reinhardt-apps/src/validation.rs:161-223 | for every order of the starts, a simple cycle is reported, from whichever of its nodes, if and only if on it each node is followed by its first neighbour that reaches a cycle |
| Validation.MissedCycle | crates/reinhardt-apps/src/validation.rs:207-213 | for A and B that refer to each other, C that refers to A and D, and D that refers to C, the cycle of C and D is reported in no order |
| Validation.ReportsFollow | crates/reinhardt-apps/src/validation.rs:207-213 | every reported path goes from each node to its first neighbour that reaches a cycle |
| Validation.SecondReportIsNoCycle | crates/reinhardt-apps/src/validation.rs:214-216 | for the models A and B that refer to each other, the second report is a single node |
| Validation.TotalTargetsBound | crates/reinhardt-apps/src/validation.rs:189-223 | neighbour lists of distinct nodes together have no more entries than there are foreign keys |
| Walks.TopologicalReachesNoCycle | crates/reinhardt-apps/src/validation.rs:204-206 | a finished node reaches no cycle, so skipping visited nodes off the stack is sound |
| OAuth2.InMemoryOAuth2Store.StoreCode | crates/reinhardt-auth/src/oauth2.rs:144-148 | exactly the one code is added |
| OAuth2.InMemoryOAuth2Store.ConsumeCode | crates/reinhardt-auth/src/oauth2.rs:150-158 | the code leaves the store in every case; it is returned only if at most 600 seconds old |
| OAuth2.InMemoryOAuth2Store.StoreToken | crates/reinhardt-auth/src/oauth2.rs:160-164 | exactly the one token is added, for the given user |
| OAuth2.LiveTokens | crates/reinhardt-auth/src/oauth2.rs:160-175 | in every interleaving, a token is answered with a user if and only if an exchange stored it for that user and nothing revoked it since |
| OAuth2.TokensNeverExpire | crates/reinhardt-auth/src/oauth2.rs:160-175 | while nothing stores or revokes a token it is answered alike, whatever else happens and however much time passes |
| OAuth2.InMemoryOAuth2Store.RevokeToken | crates/reinhardt-auth/src/oauth2.rs:171-175 | exactly the one token is removed |
| OAuth2.OAuth2Authentication.RegisterApplication | crates/reinhardt-auth/src/oauth2.rs:266-269 | exactly the one application is stored under its client id |
| OAuth2.OAuth2Authentication.ValidateClient | crates/reinhardt-auth/src/oauth2.rs:274-284 | holds exactly for a registered client with its registered secret |
| OAuth2.OAuth2Authentication.GenerateAuthorizationCode | crates/reinhardt-auth/src/oauth2.rs:287-307 | the code is stored with its client, redirect URI, user, scope and creation time |
| OAuth2.OAuth2Authentication.ExchangeCode | crates/reinhardt-auth/src/oauth2.rs:310-355 | uninterrupted: success exactly for valid credentials and a live code of the same client and redirect URI; the code is gone whenever the client was valid; the token is stored for the code's user, or nothing is |
| OAuth2.RunIsExclusive | crates/reinhardt-auth/src/oauth2.rs:144-158 | in every reachable state a code is in the store or held by one task, never in two places |
| OAuth2.OneTokenPerCode | crates/reinhardt-auth/src/oauth2.rs:310-355 | under every interleaving of exchanges, one code yields at most one access token |
| OAuth2.EveryTokenIsEarned | crates/reinhardt-auth/src/oauth2.rs:274-355 | in every reachable state each token belongs to the user of a generated code, consumed at most 600 seconds after creation by a task whose client id and registered secret were checked before, with the same client id and redirect URI |
| OAuth2.ExchangeOutcome | crates/reinhardt-auth/src/oauth2.rs:310-355 | in every interleaving an exchange grants its token if and only if the last registration of its client carries the presented secret, the code is stored when it is consumed and at most 600 seconds old, and client and redirect URI are those of the code; the token is then its user's, and otherwise the exchange fails for the first of these reasons |
| OAuth2.RedeemedExactly | crates/reinhardt-auth/src/oauth2.rs:150-158 | a validated task that consumes a stored code gets it, as it was generated, if and only if the time between generation and consumption adds up to at most 600,000,000,000 nanoseconds; it gets the expiry error otherwise |
| OAuth2.StoredExactly | crates/reinhardt-auth/src/oauth2.rs:144-158 | in every reachable state a code is stored if and only if it was generated, then stored, and no validated exchange consumed it since |
| OAuth2.RegisteredExactly | crates/reinhardt-auth/src/oauth2.rs:266-284 | credentials are valid if and only if the last registration of that client carries the secret |
| OAuth2.PresentedCodeIsGone | crates/reinhardt-auth/src/oauth2.rs:150-158 | once a validated exchange presents a code, the code never returns to the store, whatever the outcome |
| OAuth2.RejectedClientTouchesNothing | crates/reinhardt-auth/src/oauth2.rs:317-322 | no step of an exchange that fails client validation changes the code or the token store |
| OAuth2.UninterruptedExchange | crates/reinhardt-auth/src/oauth2.rs:310-355 | the steps of the transition system, run back to back, meet the contract of ExchangeCode |
| OAuth2.StepMoves | crates/reinhardt-auth/src/oauth2.rs:310-355 | a task moves only along the phases of the exchange, each under its check |
| ItemScanner.FindItemEndOffset | crates/reinhardt-admin-cli/src/migrate_v2.rs:220-375 | the loop with its index, depth and flag computes the recursive item length, on any bytes, without reading past the end |
| ItemScanner.SkipLineComment | crates/reinhardt-admin-cli/src/migrate_v2.rs:230-236 | advances past the comment's bytes, up to the line feed |
| ItemScanner.SkipBlockComment | crates/reinhardt-admin-cli/src/migrate_v2.rs:238-248 | advances past the first closing star and slash |
| ItemScanner.SkipRawContent | crates/reinhardt-admin-cli/src/migrate_v2.rs:251-294 | advances past the first quote followed by enough hashes |
| ItemScanner.SkipQuoted | crates/reinhardt-admin-cli/src/migrate_v2.rs:297-328 | advances past the first quote that no backslash escapes |
| ItemScanner.SkipAfterQuote | crates/reinhardt-admin-cli/src/migrate_v2.rs:331-353 | advances past a lifetime or a character literal as the scanner tells them apart |
| ItemTokens.FindsItemEnd | crates/reinhardt-admin-cli/src/migrate_v2.rs:215-375 | for every list of tokens, the scanner stops exactly after the first semicolon outside braces or the first brace that closes the last open one |
| ItemTokens.SkipsToken | crates/reinhardt-admin-cli/src/migrate_v2.rs:230-353 | every comment, string, byte literal and lifetime, and every raw string and character literal of the supported kinds, is skipped whole; of code, raw identifiers included, no more than the one byte |
| ItemTokens.TokensAsWritten | crates/reinhardt-admin-cli/src/migrate_v2.rs:220-353 | the tokens are written with the characters of the language |
| ItemTokens.WordsAsWritten | crates/reinhardt-admin-cli/src/migrate_v2.rs:335-340 | words start with an ASCII letter or underscore and go on with these and ASCII digits |
| ItemTokens.EndsAtDelimiter | crates/reinhardt-admin-cli/src/migrate_v2.rs:220-375 | on arbitrary bytes the result is the whole text or lies just past a semicolon or closing brace |
| ItemTokens.RawStringSkipped | crates/reinhardt-admin-cli/src/migrate_v2.rs:251-294 | a raw string with hashes is skipped whole if and only if no backslash is left over at its end, or nothing follows it |
| ItemTokens.NestedCommentSkipped | crates/reinhardt-admin-cli/src/migrate_v2.rs:238-248 | a comment that ends, comments nesting as in the language, is skipped whole if and only if no other comment opens before the first closing mark |
| ItemTokens.SkipsQuotedLetter | crates/reinhardt-admin-cli/src/migrate_v2.rs:331-353 | a quoted letter followed by a harmless byte is skipped together with that byte |
| ItemTokens.CharLiteralSkipped | crates/reinhardt-admin-cli/src/migrate_v2.rs:331-353 | a character literal is skipped whole if and only if it holds one byte that starts no identifier, or a two-byte escape |
| ItemTokens.QuotedLetterHidesSemicolon | crates/reinhardt-admin-cli/src/migrate_v2.rs:331-353 | after a quoted letter the next byte is swallowed: a semicolon there does not end the item |
| ItemTokens.HashlessRawStringNotSkipped | crates/reinhardt-admin-cli/src/migrate_v2.rs:251-294 | for a raw string without hashes only the two opening bytes are skipped, whatever it holds |
| LanguageItems.StopsExactly | crates/reinhardt-admin-cli/src/migrate_v2.rs:220-375 | for every list of tokens and every number of them, the scanner stops after that many if and only if none before the last of them ends the item for it and that last one does, or the list ends there |
| LanguageItems.StopsWithin | crates/reinhardt-admin-cli/src/migrate_v2.rs:215-375 | on an item of the language (its groups nest and it ends in its own semicolon or in its block), whatever follows, the scanner never runs past the end, and reaches it if and only if no semicolon before it stands outside braces and no brace group closes for good |
| LanguageItems.FoundWholeExactly | crates/reinhardt-admin-cli/src/migrate_v2.rs:215-375 | an item is found whole if and only if its head, what stands before its semicolon or before its block, holds no closing brace and no semicolon |
| LanguageItems.GroupsAsWritten | crates/reinhardt-admin-cli/src/migrate_v2.rs:215-219 | groups open and close with parentheses and brackets, beside braces |
| MigrateV2.FindItemStartWithPrefix | crates/reinhardt-admin-cli/src/migrate_v2.rs:195-209 | the backward loop computes the start of the attribute and doc-comment lines above the item |
| MigrateV2.PrefixIsAttributes | crates/reinhardt-admin-cli/src/migrate_v2.rs:195-213 | that start is a line start, every line crossed is an attribute or doc comment, and the walk stops only at its limit, at the start of the text or below another kind of line |
| MigrateLines.CrossedExactly | crates/reinhardt-admin-cli/src/migrate_v2.rs:197-208 | a line is crossed if and only if it is Unicode white space followed by the bytes 35 and 91 or by three times the byte 47 |
| MigrateLines.OrdinaryLines | crates/reinhardt-admin-cli/src/migrate_v2.rs:197-208 | blank lines, comments of two slashes and no third, and lines whose code starts otherwise are not crossed |
| MigrateLines.LineAboveStays | crates/reinhardt-admin-cli/src/migrate_v2.rs:117-213 | when an item changes, the crossed lines directly above it are replaced with it, and the line above those, with everything before, stays in the output |
| MigrateLines.AnchorExactly | crates/reinhardt-admin-cli/src/migrate_v2.rs:168-178 | what locates an item is the first line of its text that is not blank, no comment and no attribute, without its line ending |
| MigrateV2.FindItemInSource | crates/reinhardt-admin-cli/src/migrate_v2.rs:167-193 | the span runs from that start to the scanner's item end; it is empty when no anchor is found |
| MigrateV2.SpanExactly | crates/reinhardt-admin-cli/src/migrate_v2.rs:167-193 | the span is empty when no line locates the item or its line does not occur from there on; otherwise it ends where the scanner stops |
| MigrateV2.LocateIsOrdered | crates/reinhardt-admin-cli/src/migrate_v2.rs:117-134 | when no item is unusable, the spans are in bounds, nonempty, in source order and disjoint, one for each item |
| MigrateV2.ApplyChangesPreservingFormatting | crates/reinhardt-admin-cli/src/migrate_v2.rs:103-148 | falls back exactly when the item counts differ or an item cannot be located; otherwise the one pass over the source gives the source with exactly the changed items' spans replaced |
| MigrateV2.ReplaceIsLocal | crates/reinhardt-admin-cli/src/migrate_v2.rs:123-147 | text past the spans is carried along unchanged |
| MigrateV2.ReplaceOneMore | crates/reinhardt-admin-cli/src/migrate_v2.rs:123-142 | appending the gap and the item front to back equals replacing spans back to front |
| MigrateLayout.WalksToStart | crates/reinhardt-admin-cli/src/migrate_v2.rs:195-213 | over a run of attribute and doc-comment lines the backward walk ends exactly at its first line |
| MigrateLayout.LocatesItems | crates/reinhardt-admin-cli/src/migrate_v2.rs:117-193 | where items of the language stand in order with their attributes above, each first anchored there, every item is located: the span starts where the item does and ends inside it or at its end |
| MigrateLayout.FindsPart | crates/reinhardt-admin-cli/src/migrate_v2.rs:167-193 | an item in a source is found whole if and only if its head is plain; otherwise its last byte, a semicolon or a closing brace, is among what is not found |
| MigrateLayout.FoundWhole | crates/reinhardt-admin-cli/src/migrate_v2.rs:117-134 | the spans found are exactly the items if and only if every item has a plain head |
| MigrateLayout.ReplacedIsAssembled | crates/reinhardt-admin-cli/src/migrate_v2.rs:123-147 | the output is the gaps of the source, in order, with every unchanged item as it stood and every changed one as formatted between them |
| MigrateLayout.SplicesLaidOut | crates/reinhardt-admin-cli/src/migrate_v2.rs:103-148 | such a file never falls back; its output is the gaps with unchanged items as they stood and changed ones as formatted, each followed by what was not found of the old one; it is the gaps with the items as wanted if and only if every changed item has a plain head |
| MigrateLeftovers.BracedUseLeavesSemicolon | crates/reinhardt-admin-cli/src/migrate_v2.rs:360-365 | an item that ends in a semicolon behind a brace group leaves that semicolon behind its new text |
| MigrateLeftovers.ArrayParameterLeavesRest | crates/reinhardt-admin-cli/src/migrate_v2.rs:366-368 | an item with a semicolon between the brackets of its head leaves everything behind that semicolon after its new text |
| MigrateV2.UnchangedIsIdentity | crates/reinhardt-admin-cli/src/migrate_v2.rs:103-148 | when no item changed, the output is the source |
| GroupManagement.GroupManager.CreateGroup | crates/reinhardt-auth/src/group_management.rs:208-236 | the new state of all four maps, or the error for a short or taken name and no change |
| GroupManagement.GroupManager.GetGroup | crates/reinhardt-auth/src/group_management.rs:259-268 | in a valid state what is found carries the identifier asked for, and its name leads back to it; an identifier that does not parse and one that is unknown give different errors |
| GroupManagement.LiveGroups | crates/reinhardt-auth/src/group_management.rs:208-349 | after every history with fresh ids a group exists if and only if it was created and not deleted since, and is then still what was created |
| GroupManagement.PermissionsExactly | crates/reinhardt-auth/src/group_management.rs:325-436 | after every history with fresh ids a group has a permission if and only if it was given it while it existed, and neither was deprived of it nor deleted since |
| GroupManagement.MembershipsExactly | crates/reinhardt-auth/src/group_management.rs:325-561 | after every history with fresh ids a user is in a group if and only if they were put there while it existed, and neither were removed nor the group deleted since |
| GroupManagement.GrantsExactly | crates/reinhardt-auth/src/group_management.rs:630-644 | after every history with fresh ids a user holds a permission if and only if some group has it and they are in it, each by the history |
| GroupManagement.NamesGrantExactly | crates/reinhardt-auth/src/group_management.rs:685-707 | in a valid state names grant a permission if and only if a live group with one of them has it |
| GroupManagement.GroupManager.GetGroupByName | crates/reinhardt-auth/src/group_management.rs:291-302 | in a valid state a name resolves to the group that carries it, and to an error only if none does |
| GroupManagement.GroupManager.DeleteGroup | crates/reinhardt-auth/src/group_management.rs:325-349 | the group leaves all four maps, including every membership set; nothing else changes |
| GroupManagement.GroupManager.AddGroupPermission | crates/reinhardt-auth/src/group_management.rs:374-396 | exactly one permission is added to a live group, or an error and no change |
| GroupManagement.GroupManager.RemoveGroupPermission | crates/reinhardt-auth/src/group_management.rs:422-436 | exactly one permission is removed; an unknown group is no error |
| GroupManagement.GroupManager.AddUserToGroup | crates/reinhardt-auth/src/group_management.rs:499-521 | exactly one membership is added, only in a live group |
| GroupManagement.GroupManager.RemoveUserFromGroup | crates/reinhardt-auth/src/group_management.rs:547-561 | exactly one membership is removed |
| GroupManagement.GroupManager.GetUserGroups | crates/reinhardt-auth/src/group_management.rs:593-602 | exactly the live groups among the user's identifiers |
| GroupManagement.GroupManager.GetUserPermissions | crates/reinhardt-auth/src/group_management.rs:630-644 | the union of what the user's groups grant |
| GroupManagement.GroupManager.GetPermissionsForGroupsSync | crates/reinhardt-auth/src/group_management.rs:685-707 | the union of what the groups of those names grant, unknown names granting nothing |
| GroupManagement.RunIsValid | crates/reinhardt-auth/src/group_management.rs:208-349 | after every history with fresh ids the name index is the inverse of the groups' names, and permissions and memberships mention live groups only |
| GroupManagement.SyncAgrees | crates/reinhardt-auth/src/group_management.rs:593-707 | after every history, resolving the names of a user's groups synchronously gives exactly the user's permissions |
| GroupManagement.RecreatedGroupIsEmpty | crates/reinhardt-auth/src/group_management.rs:208-349 | whatever happens after a deletion, the deleted group stays gone for every user, and one created later under its name has no members and no permissions |
| GroupManagement.NewGroupIsEmpty | crates/reinhardt-auth/src/group_management.rs:208-236 | after every history with fresh ids, a creation succeeds if and only if the name is long enough and free; the group then has no members and no permissions and is what its name leads to, and no membership changes |
| GroupManagement.DeleteRevokesExactly | crates/reinhardt-auth/src/group_management.rs:325-349 | deletion leaves each user exactly what the remaining groups grant |
| Registry.FindsByQualifiedName | crates/reinhardt-apps/src/registry.rs:169-179 | a registered model's qualified name finds a model with that label and name if and only if neither part holds a dot |
| Registry.FindsFirstNamed | crates/reinhardt-apps/src/registry.rs:169-179 | what is found is the first model whose label and name, without dots, make the name asked for, and nothing is found if and only if there is none |
| Registry.BuildIndex | crates/reinhardt-apps/src/registry.rs:110-118 | the loop builds the index of the list by key |
| Registry.IndexLookup | crates/reinhardt-apps/src/registry.rs:344-352 | looking a key up in such an index is the order-preserving filter of the list |
| Registry.Registry.GetModelsForApp | crates/reinhardt-apps/src/registry.rs:152-154 | the app's models in registration order, the cache being built at most once |
| Registry.Registry.GetRelationshipsForModel | crates/reinhardt-apps/src/registry.rs:372-374 | the model's relationships in registration order, the cache being built at most once |
| Registry.Registry.RegisterReverseRelation | crates/reinhardt-apps/src/registry.rs:481-493 | accepted if and only if nothing has been finalized; a rejected one changes nothing |
| Registry.Registry.FinalizeReverseRelations | crates/reinhardt-apps/src/registry.rs:500-516 | freezes the registrations by target; a second call changes nothing |
| Registry.Registry.GetReverseRelationsForModel | crates/reinhardt-apps/src/registry.rs:530-536 | empty before finalization, then the registrations on that model in order |
| Strings.LastSegmentOf | crates/reinhardt-apps/src/registry.rs:280-310 | the model name is what follows the last dot |
| Strings.LastSegmentExactly | crates/reinhardt-apps/src/registry.rs:280-310 | the last segment is what holds no separator and stands alone or at the end behind one |
| Discovery.ExtractModelRelations | crates/reinhardt-apps/src/discovery.rs:231-264 | the image of the model's relationships, in order |
| Discovery.CreateReverseRelation | crates/reinhardt-apps/src/discovery.rs:313-334 | registers exactly the reverse of the relation, or is rejected after finalization |
| Discovery.BuildReverseRelations | crates/reinhardt-apps/src/discovery.rs:197-215 | registers the reverses of all relationships of registered models, model by model; fails if and only if the registry is frozen and there is one to register |
| Discovery.UnderOfReverses | crates/reinhardt-apps/src/discovery.rs:197-334 | the reverses on a model are the reverses of the relationships whose last target segment is that model, in order |
| Discovery.FoundExactly | crates/reinhardt-apps/src/discovery.rs:197-334 | an entry is found under a name if and only if some declared relationship has a target of that name, and its related model, through field, accessor and type are those of that relationship: the model name of its source, its field, its related name or else the lower-cased model name and "_set", and one-to-many, many-to-many or one-to-one as it is |
| Discovery.FindsOneModelsExactly | crates/reinhardt-apps/src/registry.rs:518-536 | what is found under a model's short name is exactly the reverses of the relationships to that model if and only if no relationship targets another model of the same short name |
| Discovery.NothingLostOrDuplicated | crates/reinhardt-apps/src/discovery.rs:197-215 | with distinct qualified names, every relationship of a registered model is collected exactly once and no other |
| Discovery.ParsesOwnStem | crates/reinhardt-apps/src/discovery.rs:504-534 | for every 32-bit number and every name, the printed file stem parses back to that migration |
| Discovery.ParsesStemExactly | crates/reinhardt-apps/src/discovery.rs:504-534 | a stem is read as the number, below 2^32, before its first underscore and the name behind it, and as nothing else |
| Discovery.QualifiedNameIdentifies | crates/reinhardt-apps/src/discovery.rs:410-412 | among app labels without a dot, two migrations have the same qualified name if and only if they are the same |
| Discovery.StemIsCanonical | crates/reinhardt-apps/src/discovery.rs:504-534 | printing a parsed stem gives it back if and only if its number has four digits, or more without a leading zero |
| Decimal.PrintsParsed | crates/reinhardt-apps/src/discovery.rs:410-412 | padded printing undoes parsing exactly for digit strings of canonical length |
| Decimal.ParsesExactly | crates/reinhardt-apps/src/discovery.rs:510-525 | what parses are digits that spell a number within the limit, behind a plus sign or not |
| Decimal.DigitsExactly | crates/reinhardt-apps/src/discovery.rs:510-525 | the digits are 0 to 9 in order, and one more digit makes ten times the number and the digit |
| Apps.Apps.Register | crates/reinhardt-apps/src/apps.rs:402-430 | succeeds if and only if the label is well formed and neither label nor name is taken; adds exactly that app, or nothing |
| Apps.LabelsExactly | crates/reinhardt-apps/src/apps.rs:186-210 | a label is well formed if and only if it is a letter or underscore followed by letters, digits and underscores |
| Apps.Apps.GetAppConfig | crates/reinhardt-apps/src/apps.rs:433-440 | the configuration found under a label carries that label |
| Apps.InstalledLeadsSomewhere | crates/reinhardt-apps/src/apps.rs:457-473 | population changes no answer about what is installed; after it every installed name is a label or leads to one |
| Apps.Apps.Populate | crates/reinhardt-apps/src/apps.rs:491-576 | succeeds if and only if no app is installed twice and reverse relations can be registered or need not be; configures every installed app and alters no earlier configuration; lookups afterwards are images of the relationships; readiness flags agree |
| Apps.Apps.AddInstalled | crates/reinhardt-apps/src/apps.rs:509-527 | adds a default configuration for exactly the installed names that are no labels |
| Apps.Apps.ClearCache | crates/reinhardt-apps/src/apps.rs:579-597 | both maps empty and all flags down; the model registry is untouched |
| Apps.NameKeptExactly | crates/reinhardt-apps/src/apps.rs:509-527 | after population a known name leads where it did if and only if it is not installed or is itself a label |
| Apps.RegisteredNameLeadsAway | crates/reinhardt-apps/src/apps.rs:509-527 | an app whose name is not its label, registered and installed by its name, is configured twice, and its name leads to the default configuration |
| Apps.RunIsValid | crates/reinhardt-apps/src/apps.rs:402-597 | after every sequence of registrations, populations, clearings and finalizations, configurations are kept by their own labels, names lead to labels, and ready implies both other flags |
| Apps.ClearedForGood | crates/reinhardt-apps/src/apps.rs:553-564 | once reverse relations are finalized and the caches cleared, population succeeds at any later time if and only if there are no reverse relations |
| Apps.RepopulatesExactly | crates/reinhardt-apps/src/apps.rs:491-597 | populating, clearing and populating again succeeds if and only if there are no reverse relations |
| Apps.PopulationIsIdempotent | crates/reinhardt-apps/src/apps.rs:509-527 | every installed app ends up configured, earlier configurations stand, and a second population changes neither map |
| Apps.Validate | crates/reinhardt-apps/src/builder.rs:433-472 | succeeds if and only if labels are well formed and distinct, full route names distinct and the database scheme recognized |
| Apps.DuplicateRoute | crates/reinhardt-apps/src/builder.rs:451-461 | finds a repeated full route name if and only if there is one |
| Apps.ClashExactly | crates/reinhardt-apps/src/builder.rs:450-461 | route names repeat if and only if two named routes have the same name behind the same namespace and colon, or without |
| Apps.Build | crates/reinhardt-apps/src/builder.rs:491-515 | succeeds exactly for a valid builder with distinct app names and a registry that can take its relations; every app is then configured under its label, and its name leads there if and only if the name is some app's label |
| Cookies.ExtractsExactly | crates/reinhardt-auth/src/handlers.rs:85-101 | for any header: the id is the value in the first piece that, trimmed, assigns to the session cookie; a piece without an equals sign is passed over |
| Cookies.ReadsExactly | crates/reinhardt-auth/src/handlers.rs:85-101 | what is read from a header of visible characters, spaces and tabs is the value of its first piece between semicolons that is, but for spaces and tabs around it, `sessionid=` and a value; nothing else is read |
| Cookies.CookiesAsWritten | crates/reinhardt-auth/src/handlers.rs:109-214 | login and logout write the cookie with its name and attributes |
| Cookies.ExtractsFirstPair | crates/reinhardt-auth/src/handlers.rs:187-203 | for any well-formed cookie list: the value of the first pair with the session cookie's name |
| Cookies.LoginRoundTrip | crates/reinhardt-auth/src/handlers.rs:103-117 | the id a login writes is read back from any cookie list into which the user agent puts the pair it kept |
| Sessions.Session.Set | crates/reinhardt-auth/src/session.rs:60-62 | exactly the one key changes |
| Sessions.LoadsItsLogin | crates/reinhardt-auth/src/session.rs:203-206 | after every interleaving with fresh ids, an id gives a user's session if and only if a login created it for that user and nothing deleted it since |
| Sessions.InMemorySessionStore.Save | crates/reinhardt-auth/src/session.rs:208-211 | the session's data is stored by value, under that id only |
| Sessions.InMemorySessionStore.Delete | crates/reinhardt-auth/src/session.rs:213-216 | exactly that id is removed |
| Sessions.LoginHandler.PerformLogin | crates/reinhardt-auth/src/handlers.rs:103-117 | one session holding the user's id is stored under the new identifier, which the cookie carries |
| Sessions.LoginHandler.Handle | crates/reinhardt-auth/src/handlers.rs:122-149 | a refused login leaves the store alone; a successful one deletes the presented session and then creates the new one |
| Sessions.LogoutHandler.Handle | crates/reinhardt-auth/src/handlers.rs:208-220 | the presented session is deleted, and nothing else |
| Sessions.LiveSessions | crates/reinhardt-auth/src/session.rs:202-217 | after every interleaving of store accesses a session is live if and only if a login created it and nothing deleted it since |
| Sessions.SessionsHoldTheirUser | crates/reinhardt-auth/src/handlers.rs:103-117 | with fresh ids, each live session holds the user of the login that created it, and nothing else |
| Sessions.InvalidatedForGood | crates/reinhardt-auth/src/handlers.rs:131-134 | with fresh ids, a session that was deleted after its login is never live again |
| Sessions.LoginReplacesOne | crates/reinhardt-auth/src/handlers.rs:122-142 | after every run, a login removes the presented session, adds exactly one and leaves all others alone |
| Sessions.LogoutEndsLogin | crates/reinhardt-auth/src/handlers.rs:187-220 | logging out with the cookie of a login, among any others, ends that session for good, whatever else runs |
| TokenAuthentication.TokenAuthentication.AddToken | crates/reinhardt-auth/src/rest_authentication.rs:263-270 | both maps stay what the list of additions makes them |
| TokenAuthentication.TokenAuthentication.FindTokenConstantTime | crates/reinhardt-auth/src/rest_authentication.rs:277-292 | the user of the indexed entry if it is for the very candidate |
| TokenAuthentication.TokenAuthentication.Authenticate | crates/reinhardt-auth/src/rest_authentication.rs:303-333 | the user of the token after the prefix and one space, if there is such a header and token |
| TokenAuthentication.TokenAuthentication.GetUser | crates/reinhardt-auth/src/rest_authentication.rs:346-367 | holds exactly for users that some stored token belongs to |
| TokenAuthentication.HitIsStoredUser | crates/reinhardt-auth/src/rest_authentication.rs:263-292 | after any additions a hit is the user stored for that exact token, even when digests collide |
| TokenAuthentication.AgreeExactly | crates/reinhardt-auth/src/rest_authentication.rs:263-292 | index and map agree on a candidate if and only if it is not stored or is the last added token with its digest |
| TokenAuthentication.CollisionFreeAgree | crates/reinhardt-auth/src/rest_authentication.rs:263-292 | without a collision with a stored token they agree |
| TokenAuthentication.CollisionHidesToken | crates/reinhardt-auth/src/rest_authentication.rs:263-292 | after a collision the earlier token is no longer found though the map holds it |
| TokenAuthentication.SameUsers | crates/reinhardt-auth/src/rest_authentication.rs:303-367 | without collisions, the users some token authenticates are exactly those that can be looked up |
| IpPermission.ContainsIsInterval | crates/reinhardt-auth/src/ip_permission.rs:451-475 | for both widths and every accepted prefix, including zero: membership is lying in the aligned interval of 2^(width - prefix) addresses, in the same family |
| IpPermission.LeadingBitsAgree | crates/reinhardt-auth/src/ip_permission.rs:451-475 | an address is in a range if and only if it is of its family and agrees with it in the leading bits, 32 or 128 less the prefix being left out |
| IpPermission.MaskRoundsDown | crates/reinhardt-auth/src/ip_permission.rs:456-460 | masking rounds down to a multiple of the range's size |
| IpPermission.SharedAddressNests | crates/reinhardt-auth/src/ip_permission.rs:451-475 | a range that shares an address with one of longer prefix contains all of it |
| IpPermission.NestedOrDisjoint | crates/reinhardt-auth/src/ip_permission.rs:451-475 | any two ranges are nested or disjoint |
| IpPermission.ParsesWrittenCidr | crates/reinhardt-auth/src/ip_permission.rs:481-497 | an address, a slash and a number up to 255 parse to that range exactly when the number fits the width |
| IpPermission.ParsesExactlyRanges | crates/reinhardt-auth/src/ip_permission.rs:481-497 | a text parses to a range if and only if it is an address, one slash and a number of at most 32, or 128 behind an IPv6 address, and to the error of a long prefix if and only if the number is more, up to 255 |
| IpPermission.ListedIsUnion | crates/reinhardt-auth/src/ip_permission.rs:64-86 | whatever additions make a list, parsing or not, an address matches it if and only if one of them is that address or a range whose interval holds it |
| IpPermission.MatchesIsUnion | crates/reinhardt-auth/src/ip_permission.rs:141-143 | an address is allowed (and likewise blocked) if and only if it is listed or lies in a listed interval |
| Bits.AndHighBits | crates/reinhardt-auth/src/ip_permission.rs:461-473 | a conjunction with the high bits is rounding down, at any width |
| Bits.ShiftedOnes | crates/reinhardt-auth/src/ip_permission.rs:456-470 | all ones shifted left within the width are the high bits |
| ProcessTree.BuildChildMap | benchmarks/frontend/runner/process-tree.ts:29-37 | each parent maps to its children in table order; unreadable lines are passed over |
| ProcessTree.Visitor.Visit | benchmarks/frontend/runner/process-tree.ts:39-44 | appends every process below the given one after all of its own descendants, as often as its parents are listed |
| ProcessTree.ListDescendantPids | benchmarks/frontend/runner/process-tree.ts:22-47 | for any table without a cycle below the root: exactly the strict descendants, every one after its own; each is listed once if and only if none below the root has two parents or two lines under one |
| ProcessTree.TerminationOrder | benchmarks/frontend/runner/process-tree.ts:7 | the root and its descendants, every process after its descendants, each once under the same condition |
| ProcessTree.ListedOnceExactly | benchmarks/frontend/runner/process-tree.ts:39-44 | a listing that holds every process as often as its parents are listed repeats nothing if and only if no process has two places |
| ProcessTree.ReturnsExactly | benchmarks/frontend/runner/process-tree.ts:39-44 | the recursion returns, within some depth of calls, if and only if there is no cycle below the root |
| ProcessTree.DistinctPidsSingleParents | benchmarks/frontend/runner/process-tree.ts:29-37 | a table without repeated identifiers gives each process one parent and one place |
| Changelog.ParseExistingSections | scripts/aggregate_changelog.py:145-232 | sections in order of first appearance, each with its first-occurrence items in order and then its noise counters, whatever lines are jumped over |
| Changelog.AddNoise | scripts/aggregate_changelog.py:224-230 | one counter line for each label that occurred, with the exact count, in the section of its first occurrence |
| Changelog.ContinuationsChangeNothing | scripts/aggregate_changelog.py:208-219 | jumping over continuation lines misses no section and no bullet |
| ChangelogReading.SectionExactly | scripts/aggregate_changelog.py:165-190 | a line is in a section if and only if a prerelease header stands above it with no other second-level heading between, and the last subsection heading since then names the section |
| ChangelogReading.NamesExactly | scripts/aggregate_changelog.py:165-188 | the sections are the named subsections of prerelease blocks, in order of first appearance |
| ChangelogReading.BulletsExactly | scripts/aggregate_changelog.py:190-219 | the bullets read are the lines that start with a dash and a space in such sections, in order and each once; an item is that line and all lines directly below it that start with two spaces, with line feeds between, and no other line is part of any |
| ChangelogReading.KeptExactly | scripts/aggregate_changelog.py:215-218 | a section keeps, in order, exactly the first item of each normal form |
| ChangelogReading.CountersExactly | scripts/aggregate_changelog.py:224-230 | the counter lines of a section, word for word and in the order of the four labels: one for each label whose first bullet stands there, with the number of its bullets |
| ChangelogBlock.EveryBulletCountedOnce | scripts/aggregate_changelog.py:190-230 | every bullet is counted exactly once as skipped, noise, duplicate or kept |
| ChangelogBlock.BulletsAreSorted | scripts/aggregate_changelog.py:190-206 | every bullet of a prerelease block lies in a known section, and its noise label is one of the labels |
| ChangelogBlock.KeptAreDistinct | scripts/aggregate_changelog.py:215-218 | kept bullets of a section have distinct normal forms, and every item's normal form is kept |
| ChangelogBlock.SplitBreaking | scripts/aggregate_changelog.py:235-256 | the loops compute the split: tagged bullets under a first section of their own, the others where they were |
| ChangelogBlock.SplitConserves | scripts/aggregate_changelog.py:235-256 | the split conserves all bullets if and only if nothing is tagged or no untagged bullet stood under "Breaking Changes" |
| ChangelogBlock.UntaggedBreakingIsLost | scripts/aggregate_changelog.py:249-255 | a tagged bullet elsewhere makes an untagged one under "Breaking Changes" disappear |
| ChangelogWriting.TaggedBulletMoves | scripts/aggregate_changelog.py:235-256 | a tagged bullet leaves its section and stands, as a bullet line without white space at its end, under a first section "Breaking Changes" |
| ChangelogWriting.UntaggedBulletStays | scripts/aggregate_changelog.py:235-256 | an untagged bullet of another section stays in it |
| ChangelogRender.RenderBlock | scripts/aggregate_changelog.py:259-294 | the loops write the sections with bullets, known names in the fixed order and then the others in their own |
| ChangelogRender.WritesEverySection | scripts/aggregate_changelog.py:273-292 | each section with bullets is written exactly once, and no other |
| ChangelogRender.WritesEveryBullet | scripts/aggregate_changelog.py:273-292 | every bullet is written exactly as often as it was collected |
| ChangelogWriting.WrittenOrder | scripts/aggregate_changelog.py:25-40 | the sections with bullets are written in the order of the fourteen names, and any others behind, in their own |
| ChangelogWriting.BlockText | scripts/aggregate_changelog.py:273-294 | the block, character by character: header, then for each section a blank line, its heading, a blank line and its bullets |
| ChangelogInject.InjectBlock | scripts/aggregate_changelog.py:297-340 | the search loops compute the insertion or the refusal |
| ChangelogWriting.FirstLineExactly | scripts/aggregate_changelog.py:313 | a line ends behind the first of the nine line-ending characters, and nowhere else |
| ChangelogWriting.InjectedExactly | scripts/aggregate_changelog.py:320-338 | the block goes below the first "Unreleased" heading and its blank lines, behind a blank line; without such a heading it goes, with one of its own, before the first prerelease header |
| ChangelogInject.InjectionPreservesText | scripts/aggregate_changelog.py:297-340 | the text before and after the inserted piece is the original |
| ChangelogInject.InjectionReadsTheSame | scripts/aggregate_changelog.py:297-340 | re-parsing the prerelease blocks gives the same bullets and sections, and a stable header is now present |
| ChangelogInject.SecondInjectionRefused | scripts/aggregate_changelog.py:310-316 | after an injection every further one is refused |
| ChangelogAggregate.Aggregate | scripts/aggregate_changelog.py:357-399 | the whole run: guard, collect, split, render, inject |
| ChangelogAggregate.AggregatedExactly | scripts/aggregate_changelog.py:357-399 | a text that holds a stable header, or whose collected sections hold no bullet, is returned as it is; into any other the rendered block of those sections is injected |
| ChangelogAggregate.FinishedIsBlock | scripts/aggregate_changelog.py:294 | stripping and ending the joined lines gives a block whose own header is its only version header |
| ChangelogAggregate.CollectedIsBlock | scripts/aggregate_changelog.py:259-294 | no bullet, section name or counter line of a changelog puts a version header into the block |
| ChangelogAggregate.NeverFails | scripts/aggregate_changelog.py:357-399 | the run never ends in an injection error: a changelog without a place for the block has nothing to put in it |
| ChangelogAggregate.AggregatedIsInsertion | scripts/aggregate_changelog.py:357-399 | the run leaves the text alone or inserts one piece that the parser reads past |
| ChangelogAggregate.SecondRunChangesNothing | scripts/aggregate_changelog.py:361-371 | a second run, with any header, leaves the result of the first as it is |
| ChangelogAggregate.WrittenBullets | scripts/aggregate_changelog.py:383-391 | the written bullets are the collected ones, tagged ones moved, if and only if the split loses none |
| ChangelogRoundTrip.JoinedPieces | scripts/aggregate_changelog.py:294 | the joined block, read as lines, has the lines of its headings and bullets in order |
| ChangelogReread.BlockAsLines | scripts/aggregate_changelog.py:294 | the final strip leaves those lines as they are if and only if the last bullet does not end in white space |
| ChangelogReread.ReadsBack | scripts/aggregate_changelog.py:145-294 | the parser reads a rendered block's sections and bullets back, every bullet in order in its section |
| ChangelogReread.RereadsExactly | scripts/aggregate_changelog.py:145-294 | the block of a parsed changelog gives the same items in every section again, and the very same sections if and only if no noise label was counted more than once |
| ChangelogReread.NothingTagged | scripts/aggregate_changelog.py:235-256 | without tagged bullets the sections written are those parsed |

## Left out

- Facade crates, exports, settings structs, WASM shims: re-exports and defaults without behaviour.
- I/O: HTTP types, the runtime, the file system, process spawning and signals. When `ps` fails the original lists nothing; that branch is not modelled.
- Lock poisoning and panics: every lock is taken.
- Concurrency outside `OAuth2` and `Sessions`: `GroupManager` changes its state through exclusive references; `Apps`, the registry and the token index are modelled one call at a time.
- Cryptography: a digest is any function, constant-time comparison is equality, identifiers are inputs that are fresh where a lemma says so.
- OAuth2 `authenticate` and `get_user`: they look a token up and load the user from a repository; refresh tokens, grant types and the list of registered redirect URIs are checked nowhere by the exchange.
- Numbers of open braces in the scanner are unbounded; the original counts in 32 bits.
- `format_single_item` and the fallback `unparse` belong to libraries: their results are inputs. Crate discovery and the migration rules are not modelled.
- Orders in which hash maps yield their elements: any order (cycle detection), or sets where the original returns lists (groups and permissions).
- Other checks of `validation.rs` (duplicate models and tables) and look-ups such as `get_relationships_to_model`: they would only add easy members.
- `Apps` ready hook and signals: the hook of a plain configuration does nothing. Poisoned states, typed look-ups, locale, media and static-file configurations are not modelled.
- Builder setters, middleware, settings and the database pool; a database URL is represented by whether its scheme is recognized.
- Session `get`, `remove`, `clear`, `is_empty`: single map operations. Other session backends are not part of this model.
- Composite, remote-user and session authentication back ends; the UUID that token authentication derives from a user id.
- IpPermission.ParsesWrittenCidr: address syntax is a parameter; `CidrRange::new` with a prefix wider than the address, where the original's shift overflows, and the extraction of the client address from proxy headers are not modelled.
- ProcessTree.ListDescendantPids: asks for a table without a cycle below the root; with such a cycle the original does not return (`ReturnsExactly`).
- Changelog.ParseExistingSections: regular expressions are predicates known only to start as they are written. Reading the file turns carriage returns into line feeds, so they end no line here; the other separators of `splitlines` do. Crate-name detection, argument parsing and the diff output are not modelled.
- ChangelogAggregate.SecondRunChangesNothing: asks for a header that the stable expression matches, on one line without white space at its end, which the script's own header is unless an argument holds a closing parenthesis or white space.
- ChangelogReread.RereadsExactly: covers changelogs without tagged bullets and blocks whose last bullet does not end in white space (`BlockAsLines` says what that changes); it takes from the expressions that a subsection's name names it again and that a counter line is noise of its own label.
- MigrateLayout.LocatesItems: asks that each item's anchor line first occurs, after what was found of the item before, in that item; the formatted texts come from a library.
- LanguageItems.FoundWholeExactly: an item is told by its groups and its end alone, not by the grammar: no keyword says which brace group is the block. It speaks of text that is a list of tokens; what the scanner makes of other literals the members of `ItemTokens` say.
- Discovery.ParsesOwnStem: file paths and the dependencies of migrations are not modelled.
