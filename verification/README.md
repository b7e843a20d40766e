# MailProcessor rule engine in Dafny

This project models the filing engine of `MailProcessor`, a small IMAP mail
filer. A run opens a mail folder read-write and searches it for SEEN messages.
Each message found that is neither DELETED nor expunged goes through the rule
walk. The walk reads the rules `header<N>`, `pattern<N>` and `destination<N>`
from the settings for N = 1, 2, 3 and so on, and stops at the first N that
has no `header<N>`. A rule matches when some value of its header fully
matches its pattern, after every run of CR, LF and TAB in the value has
become one space. A matching rule copies the message into its destination
folder and sets DELETED on it. The walk has no early exit, so a message can
be filed into several folders. Any `MessagingException` ends only the
current rule. At the end the folder is closed with expunge, which removes
the DELETED messages.

The model has four modules:

- `Settings` (`settings.dfy`): the property table, the lookups `getSetting`,
  `getSetting(key, def)` and `getBooleanSetting`, the decimal rule keys, and
  the number of rules the walk reaches.
- `Headers` (`headers.dfy`): the header clean-up behind
  `replaceAll("[\\n\\r\\t]+", " ")`, `headerMatch` and `headerFormat`.
- `Filing` (`filing.dfy`): which rules copy a message and set DELETED, and
  how the copies land in the destination folders.
- `Mailbox` (`mailbox.dfy`): a `Mailbox` class holding the scanned folder,
  with methods for `processMessage`, `processAllRead` and the folder and
  message operations they call.

The regular-expression engine is the parameter `Env.fullMatch`. Store
failures are the fault plan `Env.fault`, which says which exception, if any,
interrupts rule N for a message. The plan is arbitrary, so every property
holds whichever store operations fail. Failures of the driver's own steps
(open, search and close) are the parameter `DriverFault`.

Three details of the code decide what the model does:

- The walk stops only at a missing `header<N>` (line 133). A missing
  `pattern<N>` or `destination<N>` does not stop it. Configurations where a
  rule the walk reaches lacks either are excluded by the precondition
  `RulesComplete` (see "Left out").
- Between a match and the copy, the code reads `From` and `Subject` for two
  log lines (lines 141-142). Either read can throw, and that skips the copy
  for this rule. The model has a separate fault for this, `LogReadFault`.
- A destination name that is not an existing folder makes the copy throw, so
  no copy is made and DELETED is not set.

## Model

All source paths are in `src/main/java/net/nonews/util/MailProcessor.java`.

| member | source | states |
|---|---|---|
| Settings.GetSetting | src/main/java/net/nonews/util/MailProcessor.java:25-27 | the lookup is present iff the key is set, and then it is the stored value (Java's `null` is `None`) |
| Settings.GetSettingOr | src/main/java/net/nonews/util/MailProcessor.java:29-31 | gives the stored value when the key is set, else the default |
| Settings.GetBooleanSetting | src/main/java/net/nonews/util/MailProcessor.java:245-250 | true iff the key is set and its value is exactly "true"; an absent key gives false |
| Settings.Decimal | src/main/java/net/nonews/util/MailProcessor.java:133 | the decimal text of the rule index that `"header"+idx` appends is never empty |
| Settings.ParseDecimalOfDecimal | src/main/java/net/nonews/util/MailProcessor.java:133 | reading the decimal text back gives the index: a round trip |
| Settings.DecimalInjective | src/main/java/net/nonews/util/MailProcessor.java:133 | two different indices have different decimal texts |
| Settings.HeaderKeyInjective | src/main/java/net/nonews/util/MailProcessor.java:133 | two different indices give two different `header<N>` keys |
| Settings.HeaderKey | src/main/java/net/nonews/util/MailProcessor.java:133-134 | the name of rule N's header setting starts with "header" and goes on with N in decimal; distinct N give distinct names (`HeaderKeyInjective`) |
| Settings.PatternKey | src/main/java/net/nonews/util/MailProcessor.java:135 | the name of rule N's pattern setting starts with "pattern" |
| Settings.DestinationKey | src/main/java/net/nonews/util/MailProcessor.java:136 | the name of rule N's destination setting starts with "destination" |
| Settings.RuleKeysInjective | src/main/java/net/nonews/util/MailProcessor.java:135-136 | distinct rule numbers read distinct pattern and destination settings |
| Settings.RuleKeysDisjoint | src/main/java/net/nonews/util/MailProcessor.java:133-136 | a header, a pattern and a destination setting never share a name, whatever the rule numbers |
| Settings.HeaderKeysUpToSize | src/main/java/net/nonews/util/MailProcessor.java:133 | the keys `header1`..`header<n>` are n distinct strings |
| Settings.HeadersBounded | src/main/java/net/nonews/util/MailProcessor.java:132-154 | a settings table holds at most as many consecutive `header<k>` keys as it has entries, so the walk ends |
| Settings.FirstGap | src/main/java/net/nonews/util/MailProcessor.java:132-154 | from index n on, finds the first index with no `header<k>`, with every index before it set |
| Settings.RuleCount | src/main/java/net/nonews/util/MailProcessor.java:132-154 | K is the number of rules the walk evaluates: `header1`..`header<K>` are set and `header<K+1>` is not |
| Settings.Rules | src/main/java/net/nonews/util/MailProcessor.java:133-136 | the list of rules the walk evaluates has exactly K entries |
| Settings.RulesComplete | src/main/java/net/nonews/util/MailProcessor.java:133-136 | the precondition of the walk: every rule 1..K has its `pattern<N>` and `destination<N>` set |
| Settings.RuleWalkStep | src/main/java/net/nonews/util/MailProcessor.java:133-136 | for each index up to K+1, the loop test holds iff the index is at most K; when it holds, the rule read is the header, pattern and destination stored for that index |
| Settings.RuleCountGap | src/main/java/net/nonews/util/MailProcessor.java:133 | a missing `header<g>` means no rule at index g or later is ever evaluated |
| Settings.GapExample | src/main/java/net/nonews/util/MailProcessor.java:132-154 | with rules 1 and 3 configured and rule 2 missing, only rule 1 is evaluated |
| Headers.NormalizeFrom | src/main/java/net/nonews/util/MailProcessor.java:182 | the left-to-right reading of the replacement, which remembers whether a run is open, never makes the value longer |
| Headers.Normalize | src/main/java/net/nonews/util/MailProcessor.java:182 | the normalised value is never longer than the original |
| Headers.NormalizeCons | src/main/java/net/nonews/util/MailProcessor.java:182 | a character that is not CR, LF or TAB is kept and closes any open run |
| Headers.NormalizeAppend | src/main/java/net/nonews/util/MailProcessor.java:182 | when the second part starts with a kept character, the two parts of a value are normalised independently |
| Headers.NormalizeRunFrom | src/main/java/net/nonews/util/MailProcessor.java:182 | a non-empty run of CR, LF and TAB gives one space, or nothing if a run was already open, and the rest is read inside a run |
| Headers.NormalizeRunClosed | src/main/java/net/nonews/util/MailProcessor.java:182 | text that starts with a kept character normalises the same whether or not a run was open before it |
| Headers.NormalizeFromNoFoldChars | src/main/java/net/nonews/util/MailProcessor.java:182 | from any starting state, the result contains no CR, LF or TAB |
| Headers.NormalizeNoFoldChars | src/main/java/net/nonews/util/MailProcessor.java:182 | the normalised value contains no CR, LF or TAB |
| Headers.NormalizeRun | src/main/java/net/nonews/util/MailProcessor.java:182 | a value made only of CR, LF and TAB becomes exactly one space |
| Headers.NormalizeLeadingRun | src/main/java/net/nonews/util/MailProcessor.java:182 | a maximal leading run becomes one space in front of the normalised rest |
| Headers.NormalizeSplit | src/main/java/net/nonews/util/MailProcessor.java:182 | a character that is not CR, LF or TAB stays in place and splits the value into two independently normalised halves |
| Headers.NormalizeAfterKept | src/main/java/net/nonews/util/MailProcessor.java:182 | after a kept character the normalisation starts afresh |
| Headers.NormalizeRunAfterKept | src/main/java/net/nonews/util/MailProcessor.java:182 | a run of CR, LF and TAB after a kept character and before another kept character (or the end) becomes exactly one space |
| Headers.NormalizeRunSplit | src/main/java/net/nonews/util/MailProcessor.java:182 | each maximal run of CR, LF and TAB between other characters becomes exactly one space, and both sides are normalised on their own |
| Headers.NormalizeFromIdentity | src/main/java/net/nonews/util/MailProcessor.java:182 | from any starting state, a value without CR, LF or TAB is left unchanged |
| Headers.NormalizeIdentity | src/main/java/net/nonews/util/MailProcessor.java:182 | a value without CR, LF or TAB is left unchanged, so every other character is kept in order |
| Headers.NormalizeIdempotent | src/main/java/net/nonews/util/MailProcessor.java:182 | normalising twice gives the same as normalising once |
| Headers.NormalizeFolded | src/main/java/net/nonews/util/MailProcessor.java:182 | a value folded once, two lines joined by a run of CR, LF and TAB, becomes the two lines joined by one space |
| Headers.NormalizeExample | src/main/java/net/nonews/util/MailProcessor.java:182 | "Foo\nbar" and "Foo\r\n\tbar" both become "Foo bar" |
| Headers.ReadHeader | src/main/java/net/nonews/util/MailProcessor.java:178-180 | `getHeader` gives the values stored for the name, `null` when there are none, or an exception exactly when the fault says so |
| Headers.HeaderMatches | src/main/java/net/nonews/util/MailProcessor.java:178-189 | a rule fires only on a header that was read and has at least one value |
| Headers.HeaderMatch | src/main/java/net/nonews/util/MailProcessor.java:174-192 | an absent header or an exception while reading it gives false; otherwise the result is true iff some normalised value fully matches the pattern |
| Headers.Join | src/main/java/net/nonews/util/MailProcessor.java:163-169 | the joined text starts with the first value; `JoinAppend` and `JoinLength` give the separators |
| Headers.JoinAppend | src/main/java/net/nonews/util/MailProcessor.java:165-169 | joining two non-empty lists of values puts exactly one "\n\t" between them |
| Headers.JoinLength | src/main/java/net/nonews/util/MailProcessor.java:165-169 | the joined text is as long as all the values together plus two characters per separator |
| Headers.HeaderFormat | src/main/java/net/nonews/util/MailProcessor.java:160-172 | a null or empty array gives just the prefix; otherwise the result is the prefix followed by the values joined with "\n\t" |
| Filing.RuleMatches | src/main/java/net/nonews/util/MailProcessor.java:139 | a rule matches only when its header is present with values and was read without an exception |
| Filing.RuleCopies | src/main/java/net/nonews/util/MailProcessor.java:139-147 | a rule copies only when its header was read and its destination is an existing folder, and no fault other than the flag update occurred |
| Filing.RuleFlags | src/main/java/net/nonews/util/MailProcessor.java:148 | a rule sets DELETED only after it copied and with no fault at all |
| Filing.AnyFlagged | src/main/java/net/nonews/util/MailProcessor.java:138-153 | the walk sets DELETED iff one of its rules flags the message; `AnyFlaggedSnoc`, `AnyFlaggedAppend` and `DeletedOnlyIfCopied` characterise it |
| Filing.Destinations | src/main/java/net/nonews/util/MailProcessor.java:139-150 | the walk makes at most one copy per rule, and only into existing folders |
| Filing.DestinationsSnoc | src/main/java/net/nonews/util/MailProcessor.java:133-156 | one more rule adds its copy, if it makes one, after the copies of the rules before it |
| Filing.AnyFlaggedSnoc | src/main/java/net/nonews/util/MailProcessor.java:144-148 | after one more rule, DELETED is set iff it was set before or this rule sets it |
| Filing.DestinationsAppend | src/main/java/net/nonews/util/MailProcessor.java:131-158 | there is no early exit: the copies of a walk are the copies of any prefix followed by those of the rest, in rule order |
| Filing.DestinationsMembership | src/main/java/net/nonews/util/MailProcessor.java:139-150 | a folder receives a copy iff some rule that matches and copies names it |
| Filing.DeletedOnlyIfCopied | src/main/java/net/nonews/util/MailProcessor.java:144-148 | DELETED is only set on a message that was copied at least once |
| Filing.FaultLocality | src/main/java/net/nonews/util/MailProcessor.java:138-153 | the copies and the DELETED flag depend only on the faults of the walk's own rules |
| Filing.AnyFlaggedAppend | src/main/java/net/nonews/util/MailProcessor.java:131-158 | some rule of a concatenated walk sets DELETED iff some rule of one of the parts does |
| Filing.FailedRuleSkipped | src/main/java/net/nonews/util/MailProcessor.java:141-153 | a rule whose log read, folder lookup or copy fails adds no copy and no flag, and the rules before and after it still run |
| Filing.SingleRuleExample | src/main/java/net/nonews/util/MailProcessor.java:139-148 | a Subject "Spam report" against the rule (Subject, "Spam.*", Junk) is copied into Junk once and flagged DELETED |
| Filing.TwoMatchingRules | src/main/java/net/nonews/util/MailProcessor.java:139-150 | two rules that both match without failure copy the message into both destinations, in rule order, and set DELETED |
| Filing.CopyInto | src/main/java/net/nonews/util/MailProcessor.java:144-147 | a copy appends the message to an existing destination and leaves every other folder as it was; a missing destination changes nothing |
| Filing.AddCopies | src/main/java/net/nonews/util/MailProcessor.java:144-147 | copying never creates or removes a folder |
| Filing.AddCopiesSnoc | src/main/java/net/nonews/util/MailProcessor.java:144-147 | one more destination adds one more copy after the others |
| Filing.WalkStepFolders | src/main/java/net/nonews/util/MailProcessor.java:138-154 | one turn of the loop brings the folders from the copies of the rules before it to the copies of those rules and this one |
| Filing.WalkStepFlags | src/main/java/net/nonews/util/MailProcessor.java:148 | one turn of the loop keeps the flags right; setting DELETED again changes nothing |
| Filing.AddCopiesAt | src/main/java/net/nonews/util/MailProcessor.java:144-147 | each folder gets one copy per rule naming it, repeats included, after what it already held |
| Mailbox.Filter | src/main/java/net/nonews/util/MailProcessor.java:115-120 | a selection holds exactly the elements of the input that pass the test |
| Mailbox.FilterAppend | src/main/java/net/nonews/util/MailProcessor.java:115-120 | a selection keeps the folder order |
| Mailbox.FilterDistinct | src/main/java/net/nonews/util/MailProcessor.java:115 | a selection from a folder without repeats has no repeats |
| Mailbox.SearchSeen | src/main/java/net/nonews/util/MailProcessor.java:115 | the search returns exactly the folder's SEEN messages, in folder order, and never more messages than the folder holds |
| Mailbox.Candidates | src/main/java/net/nonews/util/MailProcessor.java:115-120 | a message reaches `processMessage` iff it is in the folder, SEEN, not DELETED and not expunged |
| Mailbox.CandidatesAppend | src/main/java/net/nonews/util/MailProcessor.java:115-120 | candidates are handled in folder order |
| Mailbox.Expunge | src/main/java/net/nonews/util/MailProcessor.java:123 | `close(true)` keeps a message iff it is not DELETED |
| Mailbox.MarkBy | src/main/java/net/nonews/util/MailProcessor.java:117-121 | marking the messages a predicate picks out changes only DELETED, and sets it exactly on those messages of the processed list |
| Mailbox.MarkAll | src/main/java/net/nonews/util/MailProcessor.java:117-121 | after the loop, only DELETED can have changed on any message, and it is set iff it was set before or the message was processed and some rule flagged it |
| Mailbox.FileAll | src/main/java/net/nonews/util/MailProcessor.java:117-121 | running the walk on each message never creates or removes a folder |
| Mailbox.MarkBySnoc | src/main/java/net/nonews/util/MailProcessor.java:117-121 | marking one more message changes at most that message's DELETED flag, whatever picks the messages |
| Mailbox.MarkAllSnoc | src/main/java/net/nonews/util/MailProcessor.java:117-121 | processing one more message changes at most that message's DELETED flag |
| Mailbox.NotYetReached | src/main/java/net/nonews/util/MailProcessor.java:119 | the flags tested at line 119 are those the search saw, because no earlier turn touched this message |
| Mailbox.RunStepFlags | src/main/java/net/nonews/util/MailProcessor.java:117-121 | one turn of the loop extends the flags from the first i messages found to the first i+1 |
| Mailbox.RunStepFolders | src/main/java/net/nonews/util/MailProcessor.java:117-121 | one turn of the loop extends the folders from the first i messages found to the first i+1 |
| Mailbox.FileAllGrows | src/main/java/net/nonews/util/MailProcessor.java:117-121 | folders only grow, and only by copies of processed messages |
| Mailbox.RunOutcome | src/main/java/net/nonews/util/MailProcessor.java:112-129 | a message the run does not select keeps its flags and is copied nowhere; a message survives expunge iff it was not DELETED before and no rule flagged it |
| Mailbox.Mailbox.constructor | src/main/java/net/nonews/util/MailProcessor.java:112-115 | the scanned folder starts closed, with the given messages, flags, headers and folders |
| Mailbox.Mailbox.Open | src/main/java/net/nonews/util/MailProcessor.java:114 | opening succeeds unless it throws, and then the folder is open |
| Mailbox.Mailbox.Close | src/main/java/net/nonews/util/MailProcessor.java:123 | a successful close leaves the folder closed with exactly its DELETED messages removed, in order; a failed close changes nothing |
| Mailbox.Mailbox.CopyMessage | src/main/java/net/nonews/util/MailProcessor.java:144-147 | the copy succeeds iff nothing throws and the destination exists, and only then appends the message to it |
| Mailbox.Mailbox.SetDeleted | src/main/java/net/nonews/util/MailProcessor.java:148 | on success DELETED is added to this message's flags and nothing else changes |
| Mailbox.Mailbox.ApplyRule | src/main/java/net/nonews/util/MailProcessor.java:138-153 | one rule copies the message iff it matches and the log reads, lookup and copy succeed; it sets DELETED iff it copied and the flag update succeeded |
| Mailbox.Mailbox.WalkRule | src/main/java/net/nonews/util/MailProcessor.java:134-154 | one turn of the `while` loop extends the copies and the flag from rules 1..idx-1 to rules 1..idx |
| Mailbox.Mailbox.ProcessMessage | src/main/java/net/nonews/util/MailProcessor.java:131-158 | the walk copies the message into the destinations of exactly the copying rules 1..K, in rule order, and sets DELETED iff one of them flagged it; no other message or flag changes |
| Mailbox.Mailbox.RunMessage | src/main/java/net/nonews/util/MailProcessor.java:118-120 | one turn of the loop processes the message iff it is neither DELETED nor expunged |
| Mailbox.Mailbox.ProcessEach | src/main/java/net/nonews/util/MailProcessor.java:117-121 | the loop leaves the flags and the folders as the walk over the selected messages, in folder order, defines them |
| Mailbox.Mailbox.ProcessAllRead | src/main/java/net/nonews/util/MailProcessor.java:112-129 | a failed open or search changes nothing; otherwise every candidate goes through the walk in order, and the close either expunges exactly the DELETED messages or, if it fails, leaves the folder open |

## Left out

- `loadSettings`, `run`, `dumpFolder` and `main` are not modelled. They hold file I/O, the network connection to the store and diagnostic printing. The settings are a given map.
- Logging (`debug`, `error`, `logger.info`) is not modelled, because it changes no state. The two header reads that the log lines make are kept, as the fault `LogReadFault`.
- The regular-expression engine behind `String.matches` is a parameter, not interpreted. A pattern that is not a valid expression makes the real `matches` throw `PatternSyntaxException`; that case is not modelled.
- Header names are compared exactly. The store's lookup by header name ignores case, and the model does not.
- Settings.RulesComplete: a rule the walk reaches without `pattern<N>` or `destination<N>` is not modelled. In the code, a missing pattern crashes the run with an uncaught `NullPointerException` only when `getHeader` returns values for that message (`matches(null)`, line 183). A missing header returns false at line 180 first. A missing destination only matters when the rule matches and both log reads succeed (lines 139-144); `getFolder(null)` is then up to the store. On every other message the walk simply goes on to rule N+1. The precondition excludes all such configurations, including the messages the program would get through without a crash.
- Settings.RuleCount: the Java `int` counter `idx` could wrap around after 2^31 - 1 rules. The index here is unbounded.
- Mailbox.Mailbox.RunMessage: `getFlags` at line 119 can throw a `MessagingException` and end the whole run. The model takes it as always succeeding. `isExpunged` declares no exception.
- Filing.CopyInto: a copy is recorded as the original message's id appended to the destination. The new message's own identity and flags are not modelled.
- Filing.CopyInto: a copy into the scanned folder itself is recorded only in the map of destination folders. The scanned folder's own message list does not grow, so the run never sees that copy.
- Mailbox.Expunge: a message that carries `Expunged` but not DELETED stays in the modelled message list after the close, and `RunOutcome` counts it as surviving. In the store such a message is no longer in the folder. Nothing after line 123 looks at it.
- Mailbox.Mailbox.Close: after a failed `close(true)` the model keeps the folder open with its message list unchanged. The real folder's state at that point is undefined. Nothing after line 123 looks at it.
- Concurrent changes to the folder during a run are not modelled. The search result is a snapshot, and the run is sequential.
