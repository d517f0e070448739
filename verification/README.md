# Linux CMND: verified models of the core

This project models the parts of Linux CMND where a mistake would cost data or
availability, and proves what they promise. The SQL dump normalizer, the format
rewriters, the update and repair workers, the scan scheduler, the firewall
policy, the archive extraction and the management server each have modules of
their own; `dafny verify dfyconfig.toml` checks them all.

Loops of the program are methods with invariants, proved against functions over
values; the properties are lemmas about those functions. Protocols whose every
step may fail are methods over a value that stands for the machine, with the set
of failing steps as a parameter; their contracts say for every such set how the
run ends, and are the transition relations that the lemmas about whole histories
use. Formats have a description of their own, in characters or bytes, that parsers
and editors are proved against. Queue and lock are a transition
system over all interleavings. State that the program updates in place under a
lock is a class.

| modules | part of the program |
|---|---|
| SqlLexer, SqlMaskStructure, SqlGrammar | the masker of the SQL audit, the shape of its output, and the grammar it is proved against |
| SqlSpans, SqlRewrite, SqlNames, SqlDefiners | replacing spans, why masking commutes with it, and why the names and definer clauses the patterns see can be replaced |
| SqlLiterals, SqlScanners, SqlHistory, SqlNormalize | the second scanner, its digest, when it agrees with the masker, the history digest, and the checked normalization |
| ClassFile, ConstantPool | the constants of a class file, and literal replacement among them |
| MultipartFormat, Multipart, CloneReceiver | upload bodies in bytes, their parser, and the receiver's byte budget |
| JavaProperties, PropertiesFormat, PropertiesText, PropertiesEdit | escaping and editing lines, what editing a file means, whole properties files, and what they load as |
| Releases, UpdateWorker, UpdateHistory, UpdateQueue | release selection, one update attempt, any sequence of attempts, and the queue with its lock |
| DatabaseCase | the repair of MySQL's table lookup |
| ScanScheduler, ScanTargets | discovery scans |
| Egress, LicenseNetwork | firewall policy and the opening for the license server |
| Extraction | transactional archive extraction |
| ManagementServer | login window, session table and slots |
| Bytes, Text, Sequences, Wrappers | helpers |

## What the code does not promise

- Masking does not commute with every replacement of whole tokens: a span that
  begins with the line feed of a line comment lets the comment swallow the new
  text. `SqlRewrite.MaskCommutesExactly` gives the exact condition; the spans
  of the normalizer begin with a letter and meet it.
- The two scanners of the normalizer differ on comments and backticks, and an
  executable comment ends at the first close marker even inside a literal.
  `SqlScanners.ScannersAgree` says exactly when they agree, and
  `SqlScanners.QuoteInComment` is a text on which they do not; there the
  literal check may refuse a dump.
- The history digest pairs source lines with masked lines by their number. A line
  separator that masking blanks, such as a vertical tab in a comment, shifts the
  pairs: another line than the one naming the history is digested
  (`SqlHistory.WrongLineDigested`). `SqlHistory.LinesAlign` says exactly when the
  lines correspond.
- The escaping of properties leaves CR and LF as they are, so a value with a
  line break is written as several lines and does not load back
  (`PropertiesText.LineFeedSplits`); `PropertiesText.WrittenTextLoads` and
  `PropertiesEdit.EditTextLoads` give the exact condition.
- The cleaning step of a queue worker can remove a valid job unrun: one that was
  published after the worker found no file, or one whose file it could not open
  or remove (`UpdateQueue.MissLoses`, `UpdateQueue.FaultLoses`).
  `UpdateQueue.LostExactly` says exactly when.
- Repeated license enabling loses a base endpoint that an earlier answer named
  and the latest does not (`LicenseNetwork.EnablingKeepsBase`, with the history
  `LicenseNetwork.BaseLost`).
- Undoing a constant-pool rewriting needs the new literals absent from the pool
  or swapped themselves (`ConstantPool.AdaptUndone`, with the file of
  `ConstantPool.UndoRefused`).

## Model

| member | source | states |
|---|---|---|
| SqlLexer.Lexer.LexicallyMask | src/cmnd_linux/sql_audit.py:77-161 | The masking loop computes the mask and the number of executable comments of the token-by-token specification, for every text; it terminates, also through nested executable comments. |
| SqlLexer.Lexer.MaskToken | src/cmnd_linux/sql_audit.py:90-159 | One turn of the loop consumes exactly the first token at the index and emits its mask. |
| SqlLexer.ScanQuoted | src/cmnd_linux/sql_audit.py:93-105 | The inner loop over a quoted region stops at its closing quote, past doubled and escaped quotes, or at the end of the text. |
| SqlMaskStructure.MaskStructure | src/cmnd_linux/sql_audit.py:71-161 | For every text the mask has the same length, each character is kept or blanked, CR and LF stay in place, and outside backtick identifiers no quote, backtick, `#`, comment opening or line-comment dashes are visible. |
| SqlMaskStructure.RegionsDescribeMask | src/cmnd_linux/sql_audit.py:77-161 | The mask is described by one region per character (shown, quoted identifier, hidden), and what is shown outside identifiers is inert. |
| SqlGrammar.MaskExactly | src/cmnd_linux/sql_audit.py:77-161 | The grammar of SQL texts, written in characters: literals with doubled and escaped quotes, backtick names, `#` and `--` line comments to their line feed, comments to their first closing marker, executable comments with a version number and a body of their own. Every text can be read by it, and the mask and the count are what its pieces show, however it is read. |
| SqlGrammar.MaskOfPrint | src/cmnd_linux/sql_audit.py:77-161 | Whatever pieces can stand side by side, of their text exactly other characters, backtick names and the bodies of executable comments are shown. |
| SqlGrammar.PiecesOf | src/cmnd_linux/sql_audit.py:77-161 | Every text is the text of some pieces that can stand side by side. |
| Text.SpaceTable | src/cmnd_linux/sql_audit.py:148-156 | The white space behind two dashes is that of Python's strings, character by character. |
| SqlRewrite.MaskCommutes | src/cmnd_linux/restore_prepare.py:140-178 | Masking the rewritten SQL equals rewriting the masked SQL, for any number of ordered spans of whole tokens, comments included, or inside one identifier, also in nested executable comments; the count of executable comments stays. |
| SqlRewrite.MaskCommutesOnce | src/cmnd_linux/restore_prepare.py:140-178 | The same for one span anywhere in the text. |
| SqlRewrite.MaskCommutesExactly | src/cmnd_linux/restore_prepare.py:140-178 | For one span of whole tokens and safe new text, masking commutes if and only if the span does not begin with the line feed that ends a line comment. |
| SqlRewrite.LineFeedExample | src/cmnd_linux/sql_audit.py:148-156 | The concrete text on which it does not: the line feed of an empty `#` comment is replaced. |
| SqlRewrite.NamesEndNoComment | src/cmnd_linux/restore_prepare.py:146-163 | A span that begins with anything but a line feed, as names and definer clauses do, never ends a line comment. |
| SqlRewrite.EditableStable | src/cmnd_linux/restore_prepare.py:171-178 | A replacement leaves every earlier span replaceable, so replacements do not disturb one another. |
| SqlLiterals.LiteralPreimage | src/cmnd_linux/restore_prepare.py:94-120 | The scanning loop feeds the digest with exactly the length-prefixed encoding of the literal list. |
| SqlGrammar.LiteralsExactly | src/cmnd_linux/restore_prepare.py:94-120 | The digested literals of a text are the quoted regions it is made of when comments and backticks are read as plain characters, in order. |
| SqlGrammar.MaskedLiteralsOfPrint | src/cmnd_linux/sql_audit.py:93-105 | The literals of the masker are the quoted pieces, those in bodies of executable comments included. |
| SqlLiterals.PreimageDecodable | src/cmnd_linux/restore_prepare.py:116-120 | The length-prefixed encoding is uniquely decodable: equal digest inputs mean equal literal lists. |
| SqlLiterals.LiteralsKept | src/cmnd_linux/restore_prepare.py:94-120 | Rewriting any number of spans outside the quoted regions by non-empty quote-free text leaves the list of literals identical. |
| Bytes.Utf8Injective | src/cmnd_linux/restore_prepare.py:116 | Different texts have different UTF-8 encodings. |
| SqlScanners.ScannersAgree | src/cmnd_linux/restore_prepare.py:94-120 | The digesting scanner and the masker read the same literals if and only if quotes occur only in the masker's literals and every literal in a closed executable comment ends before the comment does. |
| SqlScanners.QuoteInComment | src/cmnd_linux/restore_prepare.py:99-115 | A short text on which they differ: a quote in a comment gives one digested literal and none for the masker. |
| SqlScanners.LiteralsHoldQuotes | src/cmnd_linux/restore_prepare.py:99-119 | The digesting scanner misses no quote: its literals hold every quote of the text. |
| SqlNames.SeenEditable | src/cmnd_linux/restore_prepare.py:146-157 | A name of word characters that the patterns have seen in the masked text, bare or behind a backtick, can be replaced wherever it stands. |
| SqlDefiners.SeenClauseEditable | src/cmnd_linux/restore_prepare.py:159-163 | A definer clause that the pattern has seen in the masked text can be replaced, comments inside it included, when it begins at a token, blanks no literal, and stays on one level of executable comments. |
| SqlNormalize.EditableOutside | src/cmnd_linux/restore_prepare.py:283-287 | Where the two scanners agree a span of whole masked tokens never touches a digested literal. |
| SqlNormalize.SelectNames | src/cmnd_linux/restore_prepare.py:146-157 | The selected spans are the found names whose text folds to the database name and is not literally it, in order and as often as found, each with the database name as its new text. |
| SqlNormalize.ReplacementSpans | src/cmnd_linux/restore_prepare.py:140-168 | The spans are refused if and only if two overlap; otherwise they are sorted, fit for the rewriter, and exactly the names that differ from the database name in case alone and the definer clauses. |
| SqlNormalize.Normalize | src/cmnd_linux/restore_prepare.py:275-291 | The staged text is the rewritten one with the same digested literals and, where there is a history table, the same digested history; every name that differs in case alone stands in it, at its shifted place, as exactly the database name, and every definer clause as its new text; each of the five refusals is given exactly in its case, the count of definers being that of the clauses found. |
| SqlNormalize.WantedStand | src/cmnd_linux/restore_prepare.py:171-178 | Each wanted name and clause holds its new text in the result, moved by the growth of the spans before it. |
| SqlNormalize.HistoryCheckExact | src/cmnd_linux/restore_prepare.py:284-291 | For names and definer clauses as the masked text shows them, each clause on one line: as long as the same masked lines name the history, the check on the rewritten dump passes if and only if no digested line was changed. |
| SqlHistory.HistoryDigest | src/cmnd_linux/restore_prepare.py:123-137 | What is hashed is the source lines whose masked lines of the same number name the history; none is an error. |
| Text.BreakTable | src/cmnd_linux/restore_prepare.py:128-129 | The line ends of splitlines, character by character. |
| SqlHistory.LinesAlign | src/cmnd_linux/restore_prepare.py:127-134 | Source and masked text split into lines of the same lengths if and only if masking blanks no line separator other than the last character. |
| SqlHistory.WrongLineDigested | src/cmnd_linux/restore_prepare.py:127-134 | Dumps on which they do not: after a comment with a vertical tab, whatever the line that names the history, an empty line is hashed in its place. |
| SqlHistory.LinesRewritten | src/cmnd_linux/restore_prepare.py:128-129 | Splitting a rewritten text gives the lines of the original, each with the replacements that lie in it, also where lines end in CR LF or at the text's end. |
| SqlHistory.HistoryStaysExactly | src/cmnd_linux/restore_prepare.py:123-137 | For any number of replaceable spans within lines that keep which masked lines name the history, what is hashed stays if and only if each digested line is the line it was. |
| SqlNormalize.NormalizationSound | src/cmnd_linux/restore_prepare.py:275-287 | Where both scanners agree, for names and definer clauses as the masked text shows them, comments inside a clause included: the literal check cannot fail, the mask of the result is the rewritten mask, and the source can be recovered from the result. |
| SqlSpans.ApplyReplacements | src/cmnd_linux/restore_prepare.py:171-178 | The loop computes the specified rewriting. |
| SqlSpans.ApplyLast | src/cmnd_linux/restore_prepare.py:171-178 | Replacing all spans at once is replacing them one by one from the last. |
| SqlSpans.ApplyLength | src/cmnd_linux/restore_prepare.py:171-178 | The output length is the input length plus the sum of the differences. |
| SqlSpans.ApplyOutside | src/cmnd_linux/restore_prepare.py:171-178 | Every character outside the spans is in the output, moved by the growth of the spans before it. |
| SqlSpans.ApplyInside | src/cmnd_linux/restore_prepare.py:171-178 | Every new text stands in the output where its span has moved to. |
| SqlSpans.ApplyInvertible | src/cmnd_linux/restore_prepare.py:171-178 | Applying the shifted inverse spans to the output restores the input. |
| SqlSpans.CheckOverlap | src/cmnd_linux/restore_prepare.py:164-167 | Comparing neighbours after sorting finds an overlap if and only if any two spans overlap. |
| SqlSpans.SortCorrect | src/cmnd_linux/restore_prepare.py:164 | Sorting gives an ordered permutation. |
| ConstantPool.AdaptLiterals | src/cmnd_linux/java_portability.py:21-63 | The program succeeds if and only if the file is a header that counts the indices, the constants written field by field, and at least 14 bytes more, each key being exactly one text constant; its output is the same header and rest with exactly those constants replaced. Bad headers and replacements are told apart. |
| ConstantPool.AdaptExactly | src/cmnd_linux/java_portability.py:21-63 | The same for the specified rewriting: both directions, for every file and output. |
| ConstantPool.RewritePool | src/cmnd_linux/java_portability.py:28-61 | The loop over the pool reads the entries in order, emits their rewriting and counts the hits of every key. |
| ConstantPool.ReadEntry | src/cmnd_linux/java_portability.py:32-56 | One entry is read with its length and tag as section 4.4 of the Java Virtual Machine Specification lays them out, or refused as truncated or unknown. |
| ConstantPool.EntryWritten | src/cmnd_linux/java_portability.py:51-56 | A constant written by the fields of sections 4.4.1 to 4.4.12 of the Java Virtual Machine Specification is one entry, with the indices it takes. |
| ConstantPool.ConstantFor | src/cmnd_linux/java_portability.py:51-56 | Every entry that can be read is one of those constants. |
| ConstantPool.ScanReads | src/cmnd_linux/java_portability.py:28-59 | What is scanned is its entries printed: reading loses no byte, and the entries fill the counted slots, Long and Double two each. |
| ConstantPool.ScanOfPrint | src/cmnd_linux/java_portability.py:28-59 | Printed entries that fill their slots are read back as they were. |
| ConstantPool.AdaptIndexPreserving | src/cmnd_linux/java_portability.py:21-63 | On success the output reads back with the same header, count, tags, slot numbers and tail; each key's single Utf8 entry is changed and every other entry is identical. |
| ConstantPool.AdaptLength | src/cmnd_linux/java_portability.py:21-63 | The length changes by exactly the sum of the literal differences. |
| ConstantPool.AdaptUndone | src/cmnd_linux/java_portability.py:21-63 | Applying the swapped mapping to the output restores the file if and only if no new literal is empty, each is a key or absent from the original pool, and the file's length with the literal differences added is within the size limit. |
| ConstantPool.UndoRefused | src/cmnd_linux/java_portability.py:60-61 | A short class file on which it does not: the new literal stands in the pool already. |
| Multipart.ExtractMultipartFiles | src/cmnd_linux/clone_export.py:98-149 | An accepted body is, byte for byte, the opening, 1 to 64 parts and the closing delimiter of its boundary; every file in it is an archive that passes the inspection, every other field has at most 65536 bytes, and the files are the contents of the parts with a file name, in order, at least one. A refused body is refused for the reason it gives. The files written, even then, are no larger than the body. |
| Multipart.AcceptedExactly | src/cmnd_linux/clone_export.py:98-149 | A body parses to these parts if and only if it is acceptable with them, in bytes. |
| Multipart.RefusedAs | src/cmnd_linux/clone_export.py:98-149 | Each of the nine refusals is given if and only if acceptable parts are followed by what that refusal is about: no header in reach, no closing delimiter, a bad archive, an oversized field, trailing bytes, a 65th part, or no file at all. |
| Multipart.ReadParts | src/cmnd_linux/clone_export.py:111-146 | The loop over at most 64 parts computes the specified parse. |
| Multipart.FindDelimiter | src/cmnd_linux/clone_export.py:117-119 | The search loop finds the first delimiter that is followed by CRLF or two dashes. |
| Multipart.ParseIsInverseOfPrint | src/cmnd_linux/clone_export.py:98-149 | A body parses to given parts if and only if the parts are acceptable and the body is the parts printed: parsing loses nothing, and printed parts parse to themselves even when a content holds the delimiter followed by other bytes. |
| Multipart.FindAcceptedFirst | src/cmnd_linux/clone_export.py:117-119 | The end of a content is the first accepted delimiter and nothing before it is one. |
| CloneReceiver.ReceiveState.Post | src/cmnd_linux/clone_export.py:185-226 | After every request the received bytes stay within the budget and bodies and extracted files together within twice the budget; the results grow if and only if the request is allowed, its length is within the limits, the body arrives whole in time and parses, and that is a success exactly when the answer is delivered. |
| CloneReceiver.ReceiveState.Unpack | src/cmnd_linux/clone_export.py:208-210 | A body adds its parse to the results exactly when it is accepted, and never more extracted bytes than it has. |
| CloneReceiver.ReadBody | src/cmnd_linux/clone_export.py:197-207 | The spooled body is what arrives, up to the announced length, and complete exactly when so much arrives. |
| JavaProperties.EscapeValue | src/cmnd_linux/vendor_config.py:140-159 | The loop gives a text that unescapes to the value and holds no separator, comment mark or blank but behind a backslash, no tab or form feed, and nothing outside ASCII. |
| JavaProperties.EscapeGuarded | src/cmnd_linux/vendor_config.py:140-159 | The same for every suffix of a value. |
| JavaProperties.UnescapeOfEscape | src/cmnd_linux/vendor_config.py:140-159 | As the rest of one line, an escaped text unescapes to its own UTF-16 form, surrogate pairs included; what a line break in a value does to the file is stated by PropertiesText.WrittenTextLoads. |
| JavaProperties.Utf16Injective | src/cmnd_linux/vendor_config.py:155-156 | Different texts have different UTF-16 forms. |
| PropertiesText.WrittenTextLoads | src/cmnd_linux/vendor_config.py:117 | A file with one written line loads as the key with the value up to its first CR or LF and every further piece of the value as a key of its own; so it loads as the key and the value if and only if the value has no CR and no LF. |
| PropertiesText.LineFeedSplits | src/cmnd_linux/vendor_config.py:105-126 | A short loss: the value `a`, line feed, `b` for the key `k` is written and loads as `k=a` and a second key `b`. |
| JavaProperties.UpdateLines | src/cmnd_linux/vendor_config.py:108-118 | The loop overwrites exactly the lines of the keys to update and collects the keys found. |
| JavaProperties.Props | src/cmnd_linux/vendor_config.py:109-125 | On the lines of a file, the program computes the specified edit, refusing missing keys and additions that exist. |
| PropertiesText.PropsText | src/cmnd_linux/vendor_config.py:105-126 | Every file is split at all of Python's line ends; a line whose key, the trimmed text before its first equals sign outside comments, is updated is written anew, every other line stays, the added lines follow, joined by CR LF if the file has one and by LF otherwise, and the end of the file is kept. A missing key, and otherwise an added key that has a line, is the reason of a refusal. |
| PropertiesText.EditDescribed | src/cmnd_linux/vendor_config.py:105-126 | The specified edit is the one described character by character, for every file. |
| PropertiesFormat.KeyLineIs | src/cmnd_linux/vendor_config.py:111-115 | The program's key of a line is its trimmed text before the first equals sign, unless the line is a comment. |
| PropertiesEdit.EditTextLoads | src/cmnd_linux/vendor_config.py:105-126 | For plain files ended by CR or LF, the edited file loads, and it loads as the original table overridden by the updates and extended by the additions if and only if no new value has a CR or LF. |
| PropertiesEdit.OtherLinesKept | src/cmnd_linux/vendor_config.py:105-126 | Without line breaks in the new values every line but the updated ones is unchanged and the added ones follow. |
| JavaProperties.KeysLoaded | src/cmnd_linux/vendor_config.py:111-115 | The keys the editor finds are exactly the keys that loading finds. |
| Egress.Validate | src/cmnd_linux/egress.py:23-35 | A policy is accepted if and only if its chain is `CMND_` and 1 to 20 capitals, digits or underscores, its users are distinct and in range, and its endpoints are unicast addresses with ports. |
| Egress.RenderRules | src/cmnd_linux/egress.py:38-52 | The rendering computes the specified rule list. |
| Egress.RenderRefinesPolicy | src/cmnd_linux/egress.py:38-52 | Under first match the rendered chain accepts a packet of its family exactly when it is established or related, goes to loopback, or is TCP to a listed endpoint of that family, and rejects every other. |
| Egress.RenderIgnoresOrder | src/cmnd_linux/egress.py:47 | Policies with the same set of endpoints render to the same rules, whatever their order and repetitions. |
| Egress.SortedSetCorrect | src/cmnd_linux/egress.py:47 | The rendered endpoints are strictly increasing and the same set. |
| Egress.ApplyPolicy | src/cmnd_linux/egress.py:55-93 | The program succeeds if and only if both chains are its own and every command that is needed succeeds; then both chains are as rendered and OUTPUT has, in front of its old rules, one new jump for exactly the users without one. Any failure touches at most the policy's chain and the jumps to it, and a chain of someone else, or one that cannot be inspected, is found before anything is changed. |
| Egress.Filter.ApplyFamily | src/cmnd_linux/egress.py:72-92 | The same for one family, with the reason of each failure. |
| Egress.Filter.AttachUsers | src/cmnd_linux/egress.py:77-83 | Every user is attached if and only if its jump is found or can be inserted; the new jumps stand in front of OUTPUT, for exactly the users whose check found none, in the order of insertion. |
| Egress.WorkedIsApplied | src/cmnd_linux/egress.py:72-92 | When every check answers truly, a success leaves the table applied, so a second one changes nothing. |
| Egress.AppliedTwice | src/cmnd_linux/egress.py:72-92 | Applying a policy twice is applying it once. |
| Egress.AppliedFrame | src/cmnd_linux/egress.py:72-92 | An application keeps all other chains and the OUTPUT rules in order and attaches every user. |
| LicenseNetwork.Enable | src/cmnd_linux/license_network.py:43-71 | A run succeeds if and only if there is a plan, the files can be written and every command works; it stores the base endpoints with the latest resolved ones and enforces them. Any other run leaves the policy file as it was; a rolled-back one has the prior policy enforced again, and the rollback fails only when one of its own commands does. |
| LicenseNetwork.Plan | src/cmnd_linux/license_network.py:44-57 | A plan is made if and only if the prior policy is lawful and native, 1 to 32 endpoints on port 443 are resolved, each lawful, and no other host is recorded; it has exactly the prior endpoints without the earlier license ones, and the resolved ones. |
| LicenseNetwork.AfterRuns | src/cmnd_linux/license_network.py:43-71 | Over any sequence of successful, failed and rolled-back runs the file holds the base without everything answered before, and the latest answer. |
| LicenseNetwork.EnablingKeepsBase | src/cmnd_linux/license_network.py:51-59 | After any sequence of runs with a success among them the policy is base plus the latest answer if and only if every base endpoint that an earlier answer held is in the latest one. |
| LicenseNetwork.BaseLost | src/cmnd_linux/license_network.py:54-55 | A history of two runs that loses a base endpoint: it is answered once and then no more. |
| Extraction.CheckMember | src/cmnd_linux/artifacts.py:63-104 | A member is accepted if and only if its name is relative and free of `..` and drives, its sizes are in bounds, it is no link and its folded name is new. |
| Extraction.SafeMemberExactly | src/cmnd_linux/artifacts.py:63-70 | A name is accepted with a path if and only if, with backslashes read as slashes, it is relative, has no drive and no piece `..`, and the path is its pieces but the empty ones and `.`. |
| Extraction.Validate | src/cmnd_linux/artifacts.py:81-104 | The archive is accepted if and only if counts and sizes are within the limits, every name has a path, nothing is a link or expands beyond the ratio, and no two paths are alike but for case; each entry goes with the path of its name. |
| Extraction.SafeExtract | src/cmnd_linux/artifacts.py:73-126 | The program succeeds if and only if the archive is acceptable, no entry is in the way of another or of what was there, and no step fails; then exactly the archive's files are added, each with its content, none of which existed, and their names are reported in order. Any failure leaves the file map as it was. |
| Extraction.AddedExactly | src/cmnd_linux/artifacts.py:105-126 | After a success every earlier file is unchanged, every archive file has its content under the target, and no other file is new. |
| Extraction.ExtractEntry | src/cmnd_linux/artifacts.py:106-121 | One entry is extracted if and only if it finds its place and its steps work; it creates exactly its file and the directories on the way, or fails with nothing but created files to undo. |
| ScanScheduler.Scan | src/cmnd_linux/discovery.py:74-117 | For every completion order, outcome of the probes and moment of cancellation the loops end; submissions are a prefix of the targets, all before the cancellation, at least 1/rate apart and never above the pool's bound; each submitted target is reported exactly once, as what its probe came to; the scan ends with an error exactly when a submitted probe crashes, and is complete unless it is cancelled. |
| ScanScheduler.Submit | src/cmnd_linux/discovery.py:95-106 | The inner loop keeps the bound, the prefix and the pace, and ends with the pool full unless the targets are used up or the scan is cancelled. |
| ScanScheduler.Collect | src/cmnd_linux/discovery.py:108-113 | Every finished probe becomes exactly one device or one failure, as it came out, and a crash is found. |
| ScanScheduler.WaitFirst | src/cmnd_linux/discovery.py:107 | At least one pending probe is done, whichever, and none is lost. |
| ScanTargets.Targets | src/cmnd_linux/discovery.py:22-44 | The targets are accepted if and only if the cap is valid, every network is small enough, every host asked for is a unicast address of an allowed range, and of this machine in isolated mode, and there are between one and `max` of them; they are exactly those hosts, IPv4 first, ascending, without repetition. |
| ScanTargets.CollectTargets | src/cmnd_linux/discovery.py:26-43 | Counting after each network refuses exactly when the whole union is too large. |
| ScanTargets.TargetsAcceptable | src/cmnd_linux/discovery.py:32-38 | Every accepted target is a permitted unicast address, and loopback in isolated mode. |
| Releases.VersionTextExact | src/cmnd_linux/updates.py:30-33 | A text is accepted as a version exactly when it is that version's own text: reading and writing are inverse. |
| Releases.SelectRelease | src/cmnd_linux/updates.py:111-149 | With a valid channel the selection describes the first release of the highest version on offer, with the only package and manifest of their names, or reports that release's defect, or finds none exactly when nothing is on offer; everything in the terms of tags, numbers and digests. |
| Releases.ChooseNewest | src/cmnd_linux/updates.py:116-132 | The loop finds an eligible release of the highest version, the first among equals, or none exactly when there is none. |
| Releases.TheAssetIsOnly | src/cmnd_linux/updates.py:137-146 | An accepted asset is valid and the only one with its name. |
| Releases.ManifestExactly | src/cmnd_linux/updates.py:167-174 | A manifest is accepted if and only if it is of schema 1, for this version and vendor, without migration, and the versions are in order and of one major number. |
| UpdateWorker.InstallPending | src/cmnd_linux/updates.py:251-343 | For any set of failing steps: the attempt completes if and only if the job is permitted, the baseline is the current version and no step up to the end fails; otherwise it is refused or abandoned exactly where it fails, recovers if and only if none of the steps of the way back fails, and ends as `Ran` describes: before the stop the runtime is untouched, a recovery restores the previous version, the statuses are truthful. |
| UpdateWorker.Verify | src/cmnd_linux/updates.py:267-290 | The services are reached if and only if the job is offered by the channel, manifest and package agree, the baseline is the current version and no step fails; previous package and configuration are kept then. |
| UpdateWorker.BackUp | src/cmnd_linux/updates.py:291-314 | A backup is complete if and only if no step of it fails; it is raw and compressed dump of the databases as they are with all services stopped. |
| UpdateWorker.Install | src/cmnd_linux/updates.py:315-324 | Success, exactly when no step fails, means that installed code, management page and baseline are the candidate, systemd was reloaded, and all services run and were verified ready. |
| UpdateWorker.Recover | src/cmnd_linux/updates.py:326-338 | Recovery is reported if and only if none of its steps fails, and means running and ready services and, after an upgrade, installed code, management page and baseline of the previous version; no running service is stopped by it. |
| UpdateWorker.PermittedIsNewer | src/cmnd_linux/updates.py:167-174 | A permitted candidate is strictly newer, of the same major version, and the current version reaches the manifest's minimum. |
| UpdateHistory.EveryInstallationBacked | src/cmnd_linux/updates.py:251-343 | Over any sequence of attempts, however they fail, every package installation was of a newer version with previous package, configuration and complete dump kept, or the way back from such a one; kept files stay kept. |
| UpdateHistory.VersionsAdvance | src/cmnd_linux/updates.py:251-343 | While attempts complete, recover or fail before the stop, installed version, management page and baseline agree after each, and the version never decreases and grows with every completed attempt. |
| UpdateHistory.StatusTruthful | src/cmnd_linux/updates.py:324-340 | A status `complete` that the attempt wrote means that version is installed, is the baseline and is ready; `failed` with a retained backup means the dump is complete; with recovery, that a consistent machine is consistent and ready again. |
| UpdateHistory.CompleteStaysTrue | src/cmnd_linux/updates.py:184-200 | Over any sequence of attempts, even where writing the status fails, a status `complete` that can be read names the version that is installed and is the baseline. |
| UpdateQueue.OneWorker | src/cmnd_linux/updates.py:215-223 | In every reachable state at most one installer is past the lock. |
| UpdateQueue.ConsumedOnce | src/cmnd_linux/updates.py:230-236 | No queued file is taken twice, or taken and dropped; what runs from the queue was taken from it; every published file is queued, taken or dropped, and only one of these. |
| UpdateQueue.QueuedStays | src/cmnd_linux/updates.py:225-249 | A queued file stays until a process that was started as a queue worker takes exactly the file it validated or, rejecting, discards it; publishers never replace it and no process started with a job of its own removes it. |
| UpdateQueue.LostExactly | src/cmnd_linux/updates.py:237-249 | From rest, a valid queued file is lost if and only if a worker whose call failed, or that found no file, comes to its cleaning step while the file is queued. |
| UpdateQueue.DroppedExactly | src/cmnd_linux/updates.py:243-244 | Any file is dropped if and only if some cleaning step of a rejecting worker finds it queued. |
| UpdateQueue.RejectingArose | src/cmnd_linux/updates.py:230-244 | A worker rejects because of an earlier step of its own: a failed call, a missing file, or a file that is no job; after opening a valid file only a failed call. |
| UpdateQueue.NothingLost | src/cmnd_linux/updates.py:237-249 | In particular, when no system call fails and no worker opens an absent file, every valid published job is queued or taken. |
| UpdateQueue.MissLoses | src/cmnd_linux/updates.py:237-244 | A run from rest that loses a job: a worker finds no file, and the job published before its cleaning step is removed unrun. |
| UpdateQueue.FaultLoses | src/cmnd_linux/updates.py:237-244 | Another: the worker fails to open the queued file and then removes it unrun. |
| UpdateQueue.InvKept | src/cmnd_linux/update_gui.py:20-33 | Every step of a publisher, queue worker or command-line installer keeps the invariant of files, lock and phases. |
| UpdateQueue.WorkerGetsThrough | src/cmnd_linux/updates.py:224-249 | An undisturbed queue worker takes a valid file and runs exactly its job under the lock, and clears away a file that is no job; nothing else changes. |
| UpdateQueue.InstallerGetsThrough | src/cmnd_linux/updates.py:215-223 | An undisturbed command-line installer runs exactly its own job under the lock. |
| UpdateQueue.RunningEnds | src/cmnd_linux/updates.py:342-343 | A worker that is done gives the lock back, however it ends. |
| UpdateQueue.TurnedAway | src/cmnd_linux/updates.py:215-228 | Whoever finds the lock taken, or another job queued before its own, ends and changes nothing else. |
| UpdateQueue.PublishedExactly | src/cmnd_linux/update_gui.py:20-33 | A confirmed job is queued if and only if it is valid and no other one is queued. |
| DatabaseCase.NothingMerges | src/cmnd_linux/database_case.py:22-28 | Accepted schemas stay distinct when case is ignored, and so do accepted tables; every accepted name is its own lower case. |
| DatabaseCase.Repair | src/cmnd_linux/database_case.py:36-107 | For any set of failing steps and any database found: the outcome is exactly decided, the repair succeeding if and only if nothing fails, mode 1 and the same counts are read, and a failure rolling back if and only if the way back works. The setting is touched only when absent and after a listed cold copy; a handled failure leaves it absent or disabled, the database running and no writer started; writers start only after mode 1 and equal counts. |
| DatabaseCase.ColdBackup | src/cmnd_linux/database_case.py:73-85 | The backup finishes if and only if its steps work and the database stops; it is a listed copy of exactly the files of the stopped database, with the active writers stopped. |
| DatabaseCase.Enable | src/cmnd_linux/database_case.py:86-96 | Success, exactly when the steps work and mode 1 and the earlier counts are read, means the enabling file was copied once and the database runs. |
| DatabaseCase.Undo | src/cmnd_linux/database_case.py:97-104 | The undo finishes if and only if its steps work; it leaves the database running and a touched setting disabled, and starts no writer. |
| DatabaseCase.EveryRunSafe | src/cmnd_linux/database_case.py:54-107 | Over every sequence of runs the enabling file is copied successfully at most once, every touch of the setting had its cold copy, and every start of writers its verified counts. |
| DatabaseCase.TouchedOnce | src/cmnd_linux/database_case.py:58-60 | Once a run has touched the setting, later runs change nothing unless an undo failed. |
| ManagementServer.AttemptsSpread | src/cmnd_linux/update_gui.py:173-177 | Whatever requests come under a clock that never goes back, thirteen successive attempts that were not refused span at least 60 seconds and the list never exceeds twelve. |
| ManagementServer.RefusedOnlyWhenFull | src/cmnd_linux/update_gui.py:174-176 | A refusal means that at least twelve attempts were recorded, each less than a minute old when this request looked at it. |
| ManagementServer.SessionsBounded | src/cmnd_linux/update_gui.py:181-185 | The session table never holds more than 64 sessions. |
| ManagementServer.SessionLasts | src/cmnd_linux/update_gui.py:95-104 | An admitted session is honoured for exactly 1800 seconds, however many logins follow. |
| ManagementServer.SlotsConserved | src/cmnd_linux/update_gui.py:48-68 | Free slots, starting and running handlers always add up to the number of clients, also when a handler cannot start. |
| ManagementServer.AllFreeAgain | src/cmnd_linux/update_gui.py:54-68 | Once all handlers have ended, every slot is free again. |
| ManagementServer.GuiState.RecordAttempt | src/cmnd_linux/update_gui.py:173-177 | The filtering loop, with its own clock reading for each attempt, takes the state to the specified window and keeps its invariant. |
| ManagementServer.GuiState.OpenSession | src/cmnd_linux/update_gui.py:181-185 | The session table becomes the unexpired sessions with the new one, unless it is full. |
| ManagementServer.GuiState.PostLogin | src/cmnd_linux/update_gui.py:172-186 | Each reply goes with exactly its effect: only a correct password opens a session, every answered attempt was recorded once, a refusal for a full window records nothing and one for a full table has recorded the attempt. |
| ManagementServer.GuiState.Authenticated | src/cmnd_linux/update_gui.py:95-104 | A token is honoured if and only if its session is in the table and has not expired. |
| ManagementServer.Server.Acquire | src/cmnd_linux/update_gui.py:54-57 | A connection is admitted if and only if a slot is free. |
| ManagementServer.Server.StartHandler | src/cmnd_linux/update_gui.py:58-62 | A handler that cannot be started gives its slot back. |
| ManagementServer.Server.EndHandler | src/cmnd_linux/update_gui.py:64-68 | A handler's end releases its slot and never one too many. |

## Left out

- The regular expressions of the SQL audit and the normalizer: their matches are a parameter, a list of spans inside the masked text.
- SqlNormalize.NormalizationSound: definer matches that begin inside an identifier, hide a literal or an executable comment, cross the marks of an executable comment, or are followed by a backtick are not covered. That only words fold to a database's name is a condition on case folding.
- SqlNormalize.HistoryCheckExact: definer clauses that go over a line end, which joins lines, are not covered; which texts name the history is a parameter.
- SqlLexer.Lexer.LexicallyMask: the characters that count as digits are a parameter, because Python's `isdigit` follows its Unicode tables; Python's recursion limit on nested executable comments is not modelled.
- SqlLiterals.PreimageDecodable: SHA-256 is represented by its input; the eight-byte length never overflows for texts that fit in memory, which is a precondition.
- The counts of the audit report, the archive inspection and the staging of files in `prepare_windows_748_sql`.
- SqlNormalize.Normalize: case folding is any function on texts.
- Multipart.ExtractMultipartFiles: which part headers carry a file name and which contents pass the ZIP inspection are sets given with the request.
- CloneReceiver.ReceiveState.Post: parsing of the request headers is left out, and what arrives in time is given with the request; a body that cannot be created on disk is not distinguished from an empty one.
- PropertiesText.PropsText: the UTF-8 coding of the file is left out, and splitting and joining lines are functions.
- PropertiesEdit.EditTextLoads: requires plain files: `key=value` and comment lines without continuations, ended by CR or LF alone, and added keys that are plain; loading itself is modelled with continuation lines.
- Egress.ApplyPolicy: a rule set is restored for one family as a whole or not at all; literal addresses are parsed by a given map; only the filter table's chains and OUTPUT rules are modelled.
- LicenseNetwork.Enable: the resolver's answer is a parameter; resolver configuration, file ownership and the lock are left out; replacing the policy file is atomic.
- Extraction.SafeExtract: a failure leaves the directories it has made; file permissions and symbolic links on the way are not modelled; removing a created file succeeds; the expansion ratio is compared exactly instead of in floating point; case folding is a given map.
- ScanScheduler.Scan: sorting of the report by address and the contents of a device record are left out; targets are given as a list.
- ScanTargets.Targets: address and network texts are parsed already, and a network has at least one address.
- UpdateWorker.InstallPending: replacing the status file, and the baseline package by a rename, are atomic; a kill of the worker is not an outcome; token handling, redirects, transport and the 4 GiB check of free space are steps that may fail.
- UpdateWorker.InstallPending: the Debian maintainer scripts are not part of this model; a successful package installation changes the installed code and nothing else.
- UpdateWorker.Recover: the services run vendor software and are known only as running or not; what a service loaded when it started is not modelled.
- Releases.VersionTextExact: Python's limit on the digits of an integer is not modelled.
- UpdateQueue.QueuedStays: root removing the queued file by hand, and file types other than regular files, are left out.
- UpdateQueue.LostExactly: how the service manager schedules workers is not modelled; every interleaving is possible.
- DatabaseCase.Repair: the existence check of the setting's file is taken to answer truly while the container runs; recreating the container between runs is left out; the preliminary checks of configuration, root, lock, container and version are one step.
- ManagementServer.GuiState.PostLogin: password hashing, cookies and the origin and token checks are left out; session tokens are taken to be fresh.
- The background update check, `/api/install` before it publishes, GitHub transport, certificates, Docker, templates, the TV protocol and the user interface.
