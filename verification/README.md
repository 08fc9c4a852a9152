# Pedigree ports: a verified model

This project models the parts of the package builder, publisher and installer, and of the C qualifiers beside them, whose
correctness is an argument and not a glance: a bounded JSON parser, a resumable upload and a create-only publication
protocol, a serial-log verdict engine, three dependency planners and the loops that consume their plans, a version order, a
tree merge, path checks, and message framing. `dafny verify dfyconfig.toml` checks it all.

**JSON** (`Json*.dfy`). The grammar of RFC 8259, sections 2 to 8, is a tree that carries its own spelling, so `Print`
gives the exact bytes of a tree and "any white space, any mix of raw and escaped characters" is simply "any tree".
Characters are spelled as RFC 3629, section 3, says. Between the grammar and the parser stands a reading function over
the bytes, proved sound and complete for the grammar; the parser is a class over the fixed frame and token array,
proved against the reading function. Bytes are integers from 0 to 255. `value` is split into methods for its branches;
the decisions are the same.

**Planning** (`Graphs`, `Planner`, `Dependencies`, `Builds`, `Installer`). One depth-first core with a mode for what a
missing dependency means; the catalogue sort, the upload order and the installer's resolver are its three uses. The
catalogue is a map from names to dependency lists; `sorted(...)` is a parameter that lists the keys. The installer's
digest is an arbitrary function and what each download returns is an arbitrary sequence.

**Publishing** (`Upload`, `Migrate`, `Publication`, `Histories`, `Mirror`). The upload runs against a server that may
keep any part of a chunk, lose any answer, or answer anything; "honest" restricts only what accepted answers say.
Publication is a state machine, one remote operation to a step, over any number of upload requests and migrations,
from any legacy catalogue; any step may fail or be a process's last, and a catalogue query may miss a record that is
there. `Histories` follows runs step by step. `Mirror` is one call as straight code, proved to come to the same as its
own steps in the state machine, with every fault; `Migrate` is one migration as straight code, down to the object's
description.

**Verdicts** (`Suites`, `Verdicts`, `VerdictsOverTime`, `GuestRuns`). The log is a list of complete cleaned lines,
each of one kind, and whether fatal text has appeared. A passing log is described by windows, without scanning; the
checker is proved to decide that. `GuestRuns` follows a guest through its run, prefix by prefix and as the watching
loop sees it. `Suites` shows that telling lines apart by kind loses nothing of their text.

**Merging, paths, framing, versions** (`Trees`, `Texts`, `Paths`, `PathTexts`, `Framing`, `Lines`, `Cells`,
`CellOutput`, `Numerals`, `Versions`, `VersionNumbers`, `VersionKinds`, `VersionSpellings`, `Catalogue`). A file tree
is the map of its paths. A walk's normal form is read from its end, with unmatched ".." carried along, and the audit's
stack is proved to compute it. Reads and writes move any part of what they are asked for, are interrupted, or fail.
Messages to the probe are records of what its field lookups see. `PathTexts`, `CellOutput` and `VersionNumbers` say
the same of the texts and fields themselves. Case folding and white space are parameters of the version order.

Five results say where the code falls short of what one might expect, each with an input and its exact condition.
- The version comparison is not transitive across numeric and other versions (`VersionKinds.MixedNotTransitive`);
  `VersionSpellings.ConsistentIff` says which numeric versions are concerned.
- A case that exits nonzero can still be passed, if it prints the protocol's lines itself (`GuestRuns.ForgedPass`); cases that
  do not are passed exactly when they succeed (`GuestRuns.SomePrefixPasses`).
- A guest that ends between the reading of its log and the look at its process is failed although its whole log would pass
  (`GuestRuns.LateExit`); `GuestRuns.GuestVerdict` says when a guest is passed.
- An upload that succeeds need not leave a final object (`Uploads.Unfinalised`); it does exactly when the server sealed the
  request that completed the bytes (`Uploads.Upload`). `Migrations.MigrateOne` shows that the look at the object's description
  afterwards makes up for it.
- A query that misses a legacy record can let an upload publish other bytes under its name (`Publication.MissedRecord`);
  nothing else can (`Publication.Safety`).

## Model
| member | source | states |
|---|---|---|
| JsonParser.Parser.ParseFrame | language-ports/codex-code-mode-host/json.h:180-187 | Returns 0 exactly when the frame's bytes are one RFC 8259 object text of at most 4096 values and names, nested at most 32 deep, with well-formed strings and pairwise distinct decoded names, and nothing else but white space; then the token array is the preorder of that text's tree. Every read stays inside the padded frame. |
| JsonReading.ReadDocument | language-ports/codex-code-mode-host/json.h:180-187 | Reading succeeds exactly on the documents of the grammar, and finds their tree: soundness and completeness of a whole frame in one statement, over every spelling and all white space. |
| JsonFacts.DocumentUnique | language-ports/codex-code-mode-host/json.h:180-187 | A frame has one tree only, so the tokens decode back to the tree that was printed. |
| JsonReading.DocumentNoNul | language-ports/codex-code-mode-host/json.h:184 | No document contains a zero byte, so the parser's refusal of zero bytes refuses no document. |
| JsonParser.Parser.Value | language-ports/codex-code-mode-host/json.h:73-146 | The recursive parser accepts exactly what the reading function accepts, at the same end, and writes exactly the tokens of the tree that was read after those already there. |
| JsonReading.ReadValueSound | language-ports/codex-code-mode-host/json.h:73-146 | What is read at a position is a legal text within the bounds on depth and number of values, spelled at exactly that position, and ends where reading says. |
| JsonReading.ReadValueComplete | language-ports/codex-code-mode-host/json.h:73-146 | Every legal text within the bounds, whatever its white space and spelling, is read wherever it stands, as itself and up to its own end. |
| JsonReading.ReadItemsSound | language-ports/codex-code-mode-host/json.h:85-99 | The same for the items of an array or object: names are distinct from each other and from those seen before. |
| JsonReading.ReadItemsComplete | language-ports/codex-code-mode-host/json.h:85-99 | Every legal list of items whose names are new is read as itself. |
| JsonReading.TextAtPrints | language-ports/codex-code-mode-host/json.h:73-146 | The position-by-position account of a text agrees with its printed bytes. |
| JsonParser.Parser.GroupValue | language-ports/codex-code-mode-host/json.h:82-100 | Arrays and objects: fails exactly when the group cannot be read, else all its tokens are written. |
| JsonParser.Parser.Group | language-ports/codex-code-mode-host/json.h:84-100 | An empty group, or a list of items up to the closing bracket. |
| JsonParser.Parser.ItemList | language-ports/codex-code-mode-host/json.h:85-99 | The loop over items: accepted exactly when the items can be read, and their tokens follow each other. |
| JsonParser.Parser.MemberOf | language-ports/codex-code-mode-host/json.h:86-95 | A name, a colon and a value, extending the chain of names. |
| JsonParser.Parser.Name | language-ports/codex-code-mode-host/json.h:86-94 | A member name is accepted exactly when it is a string whose decoded characters differ from every earlier name of the object and a colon follows. |
| JsonParser.Parser.Duplicate | language-ports/codex-code-mode-host/json.h:90-92 | Walking the names through `next` finds a duplicate exactly when an earlier name decodes to the same code points. |
| JsonParser.Parser.Finish | language-ports/codex-code-mode-host/json.h:138-145 | Closes a token: its end, the number after its subtree, and for strings the decoding pass. |
| JsonParser.Parser.Space | language-ports/codex-code-mode-host/json.h:13-16 | Leaves the position at the first byte that is not white space. |
| JsonParser.Parser.Hex4 | language-ports/codex-code-mode-host/json.h:18-27 | The value of four hexadecimal digits; -1 exactly when there are not four. |
| JsonParser.Parser.StringChar | language-ports/codex-code-mode-host/json.h:30-62 | Decodes one character or returns -1, exactly as the decoding function says. |
| JsonParser.Parser.Escape | language-ports/codex-code-mode-host/json.h:33-48 | The same for the escapes: short ones, \u, and surrogate pairs. |
| JsonParser.Parser.Multibyte | language-ports/codex-code-mode-host/json.h:49-61 | The same for UTF-8 sequences of two to four bytes. |
| JsonStrings.UnitAtSound | language-ports/codex-code-mode-host/json.h:30-62 | Whatever decodes is one spelling of one Unicode scalar value: its UTF-8 form, a short escape, a \u escape or a surrogate pair, spelled there byte for byte. |
| JsonStrings.UnitAtComplete | language-ports/codex-code-mode-host/json.h:30-62 | Every such spelling of every scalar value decodes to that value; with soundness this makes overlong forms, lone surrogates and values above 0x10FFFF refused. |
| JsonStrings.UnitsAtSound | language-ports/codex-code-mode-host/json.h:101-144 | A string that is read is a sequence of legal characters, none of them a raw control character or quotation mark, and a closing quotation mark. |
| JsonStrings.UnitsAtComplete | language-ports/codex-code-mode-host/json.h:101-144 | Every such string is read as itself, up to its own closing quotation mark. |
| JsonScan.ScanUnit | language-ports/codex-code-mode-host/json.h:102-111 | Decoding one character is a whole number of steps of the scanning pass. |
| JsonScan.TwoPasses | language-ports/codex-code-mode-host/json.h:101-144 | The scan for the closing quotation mark and the later decoding pass succeed together exactly when the string can be read, and agree on its end. |
| JsonParser.Parser.ScanString | language-ports/codex-code-mode-host/json.h:102-111 | The scanning pass, as a loop over the frame. |
| JsonParser.Parser.CheckCharacters | language-ports/codex-code-mode-host/json.h:140-144 | The decoding pass accepts exactly when decoding lands on the closing quotation mark. |
| JsonParser.Parser.SameString | language-ports/codex-code-mode-host/json.h:64-70 | True exactly when both strings decode to the same code points, whatever their spelling. |
| JsonParser.Parser.Number | language-ports/codex-code-mode-host/json.h:119-136 | The position after a number as the parser takes one: a sign, a whole part without a leading zero, then a fraction and an exponent, each of which must be complete once it has begun; failure otherwise. |
| JsonParser.Parser.Primitive | language-ports/codex-code-mode-host/json.h:113-136 | The same for null, true, false and numbers. |
| JsonLiterals.NumberSound | language-ports/codex-code-mode-host/json.h:119-136 | What is taken as a number is one: no leading zero, digits after a point and in an exponent. |
| JsonLiterals.NumberComplete | language-ports/codex-code-mode-host/json.h:119-136 | Every number is taken whole, where the next byte could not continue it. |
| JsonLiterals.LiteralSound | language-ports/codex-code-mode-host/json.h:113-136 | What is taken as a literal is one, spelled there. |
| JsonLiterals.LiteralComplete | language-ports/codex-code-mode-host/json.h:113-136 | Every literal is taken, and taken as itself. |
| JsonTokens.TokensNested | language-ports/codex-code-mode-host/json.h:79-80 | In the token array every token's bytes lie inside its parent's, and `next` of every token marks a later token inside the same subtree or its end. |
| JsonTokens.MemberUnique | language-ports/codex-code-mode-host/json.h:165-178 | In an accepted object a name has one value, so the lookup's duplicate branch cannot be reached. |
| JsonParser.Parser.Field | language-ports/codex-code-mode-host/json.h:165-178 | Returns the value token of the one member whose decoded name is asked for, at this object's own level; -1 exactly when there is no object or no such member. |
| JsonParser.Parser.EqualString | language-ports/codex-code-mode-host/json.h:148-159 | True exactly when the token is a string that decodes to the expected bytes. |
| JsonParser.Parser.EqualPrimitive | language-ports/codex-code-mode-host/json.h:151-162 | True exactly when the token is a literal with the expected spelling. |
| JsonParser.Parser.CopyString | language-ports/codex-code-mode-host/json.h:189-201 | Succeeds exactly for a string of ASCII characters other than zero that fits, and then the buffer holds its code points and a zero. |
| Planners.Planner.Visit | support/deps.py:35-49 | One depth-first visit: adds, in post-order, the name and what it needs that is not there yet, or reports a real cycle, or a name that is unknown and needed. Ends because the names not being visited shrink. |
| Planners.Planner.VisitAll | support/deps.py:45-46 | The loop over dependencies: afterwards all of them are in the plan, and what was added is their post-order. |
| Planners.Planner.CycleAt | support/deps.py:38-40 | The reported names are a cycle: each depends on the next, and the last is the first. |
| Planners.Planner.Plan | support/deps.py:51-53 | Succeeds exactly when everything reachable from the roots is known and on no cycle; the plan is then exactly what is reachable, dependencies first, without repetition, in the post-order of the roots as given. |
| Planners.PostGrows | pup/pedigree_updater/commands/install.py:58-102 | The plan is stable: asking for more only adds to its end. |
| Graphs.OrderComplete | support/deps.py:30-53 | Whatever a dependency-first order reaches is in it, known, and on no cycle. |
| Graphs.WalkGoesBack | support/deps.py:30-53 | A walk along dependencies goes strictly backwards in such an order. |
| Dependencies.SortDependencies | support/deps.py:30-53 | Succeeds exactly when the catalogue is closed and acyclic, and then returns a dependency-first permutation of it; else a real cycle or a dependency that is unknown. |
| Dependencies.WholeCatalogue | support/deps.py:30-53 | Planning all names succeeds exactly for a closed, acyclic catalogue. |
| Dependencies.UnknownDependency | support/deps.py:41-42 | A reported unknown name is a dependency of some known package. |
| Dependencies.OrderUploads | buildPackages.py:24-50 | Orders the listed packages by their install dependencies on each other: succeeds exactly when the induced graph is acyclic, never fails on an unlisted dependency. The order holds each listed name once, and for the entry that counts for a name every listed dependency stands before it. |
| Dependencies.InducedPlan | buildPackages.py:41-43 | On the induced graph, what is needed is exactly what is listed. |
| Dependencies.ResolvePackages | pup/pedigree_updater/commands/install.py:58-102 | Succeeds exactly when everything the request needs is in the database and on no cycle. Told of the database itself: the plan holds every requested key, holds each `d-architecture` before the package whose record lists `d`, and is within every set that is closed in this way; a reported cycle goes from record to listed dependency; an unknown key is missing from the database and in every such set. |
| Dependencies.NoDependenciesPlan | pup/pedigree_updater/commands/install.py:92-94 | Without dependencies the plan holds exactly the requested packages. |
| Builds.Collector.Visit | support/deps.py:11-23 | Everything newly visited is reachable from the name, and every finished name has all its dependencies visited; tolerates cycles. |
| Builds.Collector.Collect | support/deps.py:7-27 | Returns exactly what the given dependencies reach, once each, and dependencies first where there is no cycle; fails exactly when something reachable is unknown. |
| Builds.SelectWithDependencies | support/deps.py:56-63 | Returns exactly the names reachable from the request, dependencies first and in the order of the whole catalogue's plan; succeeds exactly when the request is known and the catalogue closed and acyclic. |
| Builds.FilterFirst | support/deps.py:63 | Keeping a dependency-closed part of a dependency-first order keeps it dependency-first. |
| Builds.BuildAll | buildPackages.py:99-129 | A package is blocked exactly when some transitive dependency failed, attempted exactly when it is not blocked and only after all its transitive dependencies were built, in the order of the list; 0 exactly when everything was built. |
| Builds.BlockedBefore | buildPackages.py:104-112 | Looking at direct dependencies only is enough: one of them failed or is blocked exactly when a transitive one failed. |
| Builds.DependencyBuilt | buildPackages.py:114-121 | A package that is not blocked has all its transitive dependencies built already. |
| Installers.Installer.Download | pup/pedigree_updater/commands/install.py:194-216 | A download succeeds exactly when bytes arrive with the catalogue's digest; otherwise the repository is banned and nothing stays in the cache. |
| Installers.Installer.TryRepositories | pup/pedigree_updater/commands/install.py:193-216 | Asks the repositories that have not failed, in order, each once, until one has the archive; all of them if none has. |
| Installers.Installer.Provide | pup/pedigree_updater/commands/install.py:181-218 | Succeeds exactly when the archive is in the cache, and then its digest is the catalogue's; a good cached archive contacts nobody; failure means every repository has failed. No other cached file changes. |
| Installers.Installer.Run | pup/pedigree_updater/commands/install.py:179-234 | Installs a prefix of the plan, all of it exactly on success; every extracted archive has the catalogue's digest; no repository is contacted after it failed. |
| Installers.Install | pup/pedigree_updater/commands/install.py:161-234 | From the request to the last extraction, for every sequence of failures and corrupt downloads: each archive is extracted only with its right digest, and after the archives of everything its database record lists; success extracts every requested package. |
| Uploads.Session.Put | scripts/migrate_package_blobs.py:514-542 | A data request: the server keeps some of a chunk that starts at its end, ignores any other, and answers truthfully, not at all, with an error, or with anything. |
| Uploads.QueryOffset | scripts/migrate_package_blobs.py:544-559 | Returns what the first of at most three answers says that says anything: complete, a range, or no range for zero; an error that is not transient ends the asking. |
| Uploads.Submit | scripts/migrate_package_blobs.py:570-600 | One data request and the reading of its answer, for every answer: an acknowledged offset is taken as it is, no range or a transient failure leads to asking, anything else ends the upload. |
| Uploads.HonestUnderstood | scripts/migrate_package_blobs.py:570-600 | What the client understands of an honest server is where it is; one that loses no two answers in a row is always understood. |
| Uploads.SendChunk | scripts/migrate_package_blobs.py:570-600 | With an honest server the client still knows the committed length afterwards, what is committed is still a prefix of the file, and a request of which a grain is kept makes progress; with one that loses no two answers in a row the client goes on. |
| Uploads.Upload | scripts/migrate_package_blobs.py:561-618 | Ends within 5 data requests a byte whatever is answered, and within 5 for every 256 KiB started when the server commits whole units. With an honest server every data request starts at the committed length, committed bytes are a prefix of the file, a finalised object is the file, and success means the whole file is committed; the object is then final exactly when the server sealed the request that completed the bytes. A bad chunk size is refused without a request; a server that keeps something of every chunk and loses no two answers in a row is served to the end. When the server loses no two answers in a row, a nonempty upload fails exactly if five data requests in a row add nothing, and then at the fifth; so it succeeds whenever the server keeps a grain of at least one of any five. |
| Uploads.Unfinalised | scripts/migrate_package_blobs.py:561-618 | Success alone does not finalise: for every nonempty file, a server that keeps every chunk whole and answers truthfully but does not seal sees the upload succeed with the whole file committed and no final object. |
| Uploads.OneStall | scripts/migrate_package_blobs.py:561-618 | A server that keeps nothing of the first chunk and everything from then on: the upload stalls once and succeeds. |
| Uploads.GrainsCeiling | scripts/migrate_package_blobs.py:563-564 | The number of units in that bound is the size divided by 256 KiB, rounded up. |
| Migrations.DownloadAndVerify | scripts/migrate_package_blobs.py:355-443 | Succeeds exactly when one of the first three arrivals is sound (status, declared and actual size, digest) and all before it are worth repeating, and returns the bytes of that arrival. |
| Migrations.Gcs.Finalise | scripts/migrate_package_blobs.py:473-512 | A finished session creates the object under its description unless the name is taken. |
| Migrations.MigrateOne | scripts/migrate_package_blobs.py:643-665 | However the upload went and whoever else writes the name, success means an object there whose seven described fields are the expected ones, so with the download's size and MD5 digest; nothing that was there changes; without `apply` nothing is written; an object that is there decides by its description alone; with a helpful server and nobody else the upload succeeds and holds the download. For a name that was free the outcome is given in full: with `apply`, an action is reported exactly when the upload ended well or was told that the name is taken, and an object with all expected fields is there; it is "verified-existing" in the second case. |
| Publication.Safety | pup/http/pup_http/views.py:293-358 | In every run of interleaved upload requests and migrations that starts from any legacy catalogue and any part of it published, and in which no query misses an unpublished record with another digest, at every moment: a published object has its recorded digest; every record's source blob exists with its digest, and the object of its name, if published, has that digest too; records added since the start are published; all records of one name agree. |
| Publication.FreshSafety | pup/http/pup_http/views.py:293-358 | From an empty catalogue that condition holds of every run, whatever its queries miss, and every record names a published object with its digest. |
| Publication.MissBreaks | pup/http/pup_http/views.py:322-346 | The condition is needed: wherever a query misses an unpublished record with another digest than that of a sound upload, three more steps of that upload publish an object that the record disagrees with. |
| Publication.MissedRecord | pup/http/pup_http/views.py:322-346 | Such a run in full, from a catalogue of one legacy record, for any two contents that the digest tells apart. |
| Publication.MigrationPublishes | scripts/migrate_package_blobs.py:643-665 | Any unpublished record is published by a migration that downloads the right bytes, with those bytes and its digest. |
| Publication.Immutable | pup/http/pup_http/gcs_mirror.py:115-122 | Once published, an object stays, unchanged, in every later state of every run. |
| Publication.StepInv | pup/http/pup_http/views.py:293-358 | The invariant behind it is kept by every step of every process, including failures and crashes at any point, unless the step is a query that does such harm. |
| Publication.RunInv | pup/http/pup_http/views.py:293-358 | And so holds in every state of such a run, with every record that is new since the start published. |
| Publication.CopyInv | pup/http/pup_http/gcs_mirror.py:114-128 | Kept by the create-only copy, whether it creates, finds a match, finds a conflict or its answer is lost. |
| Publication.CommitInv | pup/http/pup_http/views.py:348-356 | Kept by inserting the record, although two requests may both insert one; what the record says is `Histories.Provenance`. |
| Publication.DiscardInv | pup/http/pup_http/views.py:335-337 | Kept by deleting an upload's blob: no record refers to it. |
| Publication.CreateInv | scripts/migrate_package_blobs.py:643-665 | Kept by a migration's upload, which races with requests and other migrations for the same name. |
| Publication.StepKeeps | pup/http/pup_http/gcs_mirror.py:115-122 | No step changes or removes a published object. |
| Histories.Provenance | pup/http/pup_http/views.py:293-358 | In every run, each record that is new since the start has the name, digest and dependencies (none only where none were given) of a request that brought its blob, and no other request brought that blob; in a careful run the blob still holds the bytes that came with it, and they have the digest. |
| Histories.KnownAnswered | pup/http/pup_http/views.py:322-337 | A request ends as known only if a query found a record of its name and digest, with its dependencies where it gave any. |
| Histories.Undisturbed | pup/http/pup_http/views.py:293-358 | One request from its arrival to its answer, without disturbance, in every case of record, digest and published object: exactly the object, the record and the blob that it leaves behind, and nothing staged. |
| Histories.HasHistory | pup/http/pup_http/views.py:293-358 | Every run has a list of steps, so these results are about every run. |
| Mirrors.DigestingReader.Read | pup/http/pup_http/gcs_mirror.py:38-42 | What is handed on is what is digested and counted. |
| Mirrors.DigestingReader.Drain | pup/http/pup_http/gcs_mirror.py:97-105 | After the storage client has consumed the stream in chunks of any size, the digest is over exactly the bytes sent. |
| Mirrors.Bucket.MirrorPackage | pup/http/pup_http/gcs_mirror.py:57-135 | The outcome and the whole new state of bucket and staging, by cases over what was there, the digest and the faults, among them requests that take effect while their answer is lost: the name is created only for bytes with the expected digest and never overwritten. |
| Mirrors.AloneAgrees | pup/http/pup_http/gcs_mirror.py:57-135 | With or without the first look and whatever goes wrong, an undisturbed call and the corresponding steps of the interleaved model come to the same verdict, bucket and staging. |
| Suites.LoadSuite | scripts/qualify-language-ports.py:58-75 | Accepts exactly suites with entries whose names are distinct and made of the allowed characters, whose commands are not blank and whose markers are lines that are not empty, spelled out; so case names are distinct. |
| Suites.WriteRead | scripts/qualify-language-ports.py:113-125 | Telling the kinds of lines apart loses nothing of their text. |
| Suites.ReadInjective | scripts/qualify-language-ports.py:113-125 | Two lines are equal as kinds exactly when their texts are equal. |
| Suites.ReadWrite | scripts/qualify-language-ports.py:91-101 | The lines that the script writes are read as what they are. |
| Suites.StatusIff | scripts/qualify-language-ports.py:115 | A line is a status line exactly when it is spelled as one: prefix, name, space and numeral, over all texts. |
| Suites.ZeroValue | scripts/qualify-language-ports.py:116-118 | A status code is zero for the checker exactly when its numeral has the value 0, whatever its sign and leading zeros. |
| Verdicts.EvaluateOutput | scripts/qualify-language-ports.py:105-142 | Pass exactly when there is no fatal text, one BEGIN and one END, the statuses are the case names in order with code zero, and ordered disjoint windows between BEGIN and END hold every case's markers; pending exactly when no END is there and nothing is wrong yet. |
| Verdicts.ScanComplete | scripts/qualify-language-ports.py:127-139 | The greedy first-match scan stays within a bound exactly when some choice of windows does: it never misses. |
| Verdicts.FirstWindow | scripts/qualify-language-ports.py:132-139 | Any first window can be traded for the greedy one, which ends at the same status line. |
| Verdicts.ScanCases | scripts/qualify-language-ports.py:127-139 | The loop with its advancing cursor computes that scan. |
| Verdicts.ScanCase | scripts/qualify-language-ports.py:131-139 | One case of it: the boundaries found, and the markers between them. |
| Verdicts.Count | scripts/qualify-language-ports.py:123-124 | A count of one means the line stands at one place only. |
| VerdictsOverTime.FailIsFinal | scripts/qualify-language-ports.py:105-142 | Once a log fails, every longer log fails. |
| VerdictsOverTime.NonzeroFails | scripts/qualify-language-ports.py:116-118 | A log with a nonzero status fails. |
| VerdictsOverTime.BootScript | scripts/qualify-language-ports.py:88-102 | A script with the right first two lines that, whatever the commands do, writes BEGIN and then, case by case, the start line, the command's output and its status, up to END or the first nonzero status. |
| VerdictsOverTime.ScriptWrites | scripts/qualify-language-ports.py:88-102 | The same of the script as a list of commands, by running it command by command. |
| VerdictsOverTime.HonestRun | scripts/qualify-language-ports.py:88-142 | The log of cases that succeed, print their markers and print no protocol lines is pending at every proper prefix and passes at the end. |
| GuestRuns.NonzeroNeverPasses | scripts/qualify-language-ports.py:88-142 | With a case that exits nonzero the finished log fails, and so does everything that extends it; and while no case prints the end marker, no log along the way passes. |
| GuestRuns.ForgedPass | scripts/qualify-language-ports.py:105-142 | Without that condition one can: a case that prints its own zero status and the end marker before exiting with 1 passes at the fifth line, and fails at the sixth. |
| GuestRuns.SilentVerdict | scripts/qualify-language-ports.py:88-142 | For distinct names and cases that print no protocol lines, the finished log passes exactly when every case exits zero and prints its markers, and else fails. |
| GuestRuns.SomePrefixPasses | scripts/qualify-language-ports.py:88-142 | And so does some prefix of it. |
| GuestRuns.SilentPending | scripts/qualify-language-ports.py:88-142 | Every proper prefix of such a log is pending, however the cases end. |
| GuestRuns.NonzeroTurns | scripts/qualify-language-ports.py:116-118 | With a nonzero case such a log is pending up to the nonzero status line, which is its last, and fails from it on. |
| GuestRuns.RunGuest | scripts/qualify-language-ports.py:258-276 | The polling loop stops at the first look that is not pending or whose guest has ended or run out of time; it passes exactly on a passing log. |
| GuestRuns.GuestVerdict | scripts/qualify-language-ports.py:252-286 | Looking at prefixes of one log of cases that print no protocol lines, it passes a guest exactly when every case succeeds and the whole log is seen before any look was over; it fails one only if some case does not, or a look at an unfinished log was over. |
| GuestRuns.NonzeroGuest | scripts/qualify-language-ports.py:252-286 | It never passes a guest with a nonzero case while no case prints the end marker. |
| GuestRuns.LateExit | scripts/qualify-language-ports.py:259-273 | A guest that succeeds and exits between the reading of its log and the look at its process is failed: a log of five lines read up to the fourth. |
| Trees.Destination.MergeTree | packages/codex/package.py:26-53 | Succeeds exactly when both trees agree on every common path and the source has nothing unsupported; the destination then holds every path of both with its kind, mode and content or target, and nothing else. Entries that were there never change, and the destination stays a tree, even on failure. A merge that fails leaves only entries of the source, and its unfinished directories with the mode they were made with. |
| Trees.Destination.MergeEntry | packages/codex/package.py:29-53 | The same for one entry, by what is there already. |
| Trees.Destination.Merge | packages/codex/package.py:26-27 | The outermost call, which creates the destination directory or fails where something else stands. |
| Trees.OrderIrrelevant | packages/codex/package.py:26-53 | Merging two trees succeeds in one order exactly when it does in the other, with the same result. |
| Trees.AgreePart | packages/codex/package.py:29-47 | A disagreement at one entry is a disagreement of the whole, so stopping at the first is right. |
| Trees.SiblingsApart | packages/codex/package.py:28-30 | Entries with different names meet at no path. |
| Framing.Connection.Write | language-ports/codex-code-mode-host/probe.c:50-62 | In any number of attempts, what was sent is a part of the buffer from its start, the whole of it exactly on success; succeeds if no attempt fails and enough of them move something. |
| Framing.Connection.Read | language-ports/codex-code-mode-host/probe.c:50-62 | What was taken is in the buffer in order, nothing is lost, nothing else in the buffer changes; succeeds exactly when all the bytes were taken. |
| Framing.Connection.SendFrame | language-ports/codex-code-mode-host/probe.c:64-69 | Sends the length, least significant byte first, and the text; success exactly when the whole frame was sent. |
| Framing.Connection.ReadFrame | language-ports/codex-code-mode-host/probe.c:71-80 | Success takes exactly one frame off the stream, of allowed size, whose text is a document; a stream that begins with such a frame is accepted however reads are split. |
| Framing.LengthRoundTrip | language-ports/codex-code-mode-host/probe.c:66-75 | Four bytes carry a length modulo 2 to the 32. |
| Framing.BytesRoundTrip | language-ports/codex-code-mode-host/probe.c:66-75 | And four bytes are the encoding of the length they decode to. |
| Framing.FrameUnique | language-ports/codex-code-mode-host/probe.c:64-80 | A stream begins with at most one frame. |
| Framing.StreamUnique | language-ports/codex-code-mode-host/probe.c:64-80 | Frames read off a stream are the frames that were written to it, in order, and what remains is what was not read. |
| Framing.StreamMore | language-ports/codex-code-mode-host/probe.c:64-69 | Sending one more frame appends it to the stream of frames. |
| Framing.SoundStart | language-ports/codex-code-mode-host/probe.c:71-80 | Deciding by the first four bytes loses no sound frame. |
| Framing.SendAll | language-ports/codex-code-mode-host/probe.c:64-69 | Success means that the stream has grown by exactly the frames of the texts, in order. |
| Framing.ReceiveAll | language-ports/codex-code-mode-host/probe.c:71-80 | Success takes exactly so many frames off the stream, each with a document; if as many are there and reads work, it succeeds. |
| Framing.Exchange | language-ports/codex-code-mode-host/probe.c:64-80 | What is sent is received: the same texts in the same order, nothing left over, however reads and writes are split; under working reads and writes it succeeds. |
| Lines.LineReader.NextLine | language-ports/codex-app-server/probe.c:261-290 | Hands out the next line, with the bytes pending and unread after it exactly the rest of the stream; fails only with no newline pending, and under working reads only for an overlong line or the stream's end. |
| Lines.LineReader.TakeLine | language-ports/codex-app-server/probe.c:264-271 | The line, its newline and what is then pending are what was pending before. |
| Lines.LineReader.Response | language-ports/codex-app-server/probe.c:261-291 | Skips notices and ends at the first other line; notices, that line and what is unread are the stream, byte for byte. Under working reads it gives up only for an overlong line or the stream's end. |
| Lines.FirstLineUnique | language-ports/codex-app-server/probe.c:264-271 | A stream splits off its first line in one way. |
| Cells.Probe.AsyncMessage | language-ports/codex-code-mode-host/probe.c:100-125 | Accepts exactly a first closing of an existing cell of the session, or the one expected tool call of the newest cell, and books it. |
| Cells.Probe.CloseCell | language-ports/codex-code-mode-host/probe.c:104-108 | The bit of a cell is set exactly once, on its first closing. |
| Cells.Probe.Receive | language-ports/codex-code-mode-host/probe.c:127-142 | Succeeds exactly when the messages before the first reply are all welcome and that reply matches in type, id and status; takes exactly those messages. |
| Cells.Probe.Request | language-ports/codex-code-mode-host/probe.c:144-153 | A numbered request succeeds exactly when the reply with its own number has the expected type. |
| Cells.Probe.Execute | language-ports/codex-code-mode-host/probe.c:174-213 | Succeeds exactly when the replies are a complete conversation: every report is of this cell, all but the last say it goes on, the last that it ended with an error exactly if one is expected, and the expected text is in exactly one of them, none of the others having output. `CellOutput.FinishesIff` says this field by field. |
| CellOutput.FinishesIff | language-ports/codex-code-mode-host/probe.c:147-213 | An execution succeeds exactly when the messages up to some reply settle the books and the replies, field by field, are a whole run: started under this cell and request, reports of this cell with a duration and a list of items, the last a result whose `error_text` is as expected, and all items of all reports put together exactly the expected output. |
| CellOutput.AtOnce | language-ports/codex-code-mode-host/probe.c:174-213 | The shortest such run spelled out: it is accepted for either expectation of text and error. |
| CellOutput.BegunIff | language-ports/codex-code-mode-host/probe.c:194 | An execution that is left running is one whose first report, field by field, goes on without output. |
| CellOutput.AcceptedMessages | language-ports/codex-code-mode-host/probe.c:98-125 | Among accepted messages every tool call is the one `echo` of 42 by the newest cell, field by field, and every closing is of a cell of this session. |
| Cells.Probe.Follow | language-ports/codex-code-mode-host/probe.c:193-212 | The loop over reports decides exactly that. |
| Cells.GoesOn | language-ports/codex-code-mode-host/probe.c:195-206 | While the cell goes on, only a longer conversation can be complete, and none is once a report is out of place or the text comes twice. |
| Cells.Ends | language-ports/codex-code-mode-host/probe.c:208-212 | When the cell has ended, the conversation is complete now or never. |
| Cells.Probe.Shutdown | language-ports/codex-code-mode-host/probe.c:319-321 | Passes exactly when the session closes and every cell ever started was closed exactly once. |
| Cells.MarkAll | language-ports/codex-code-mode-host/probe.c:321 | The mask is full exactly when the accepted closings are the cells, each once. |
| Cells.EveryClosingBooked | language-ports/codex-code-mode-host/probe.c:100-108 | The accepted closings are exactly the closing messages that arrived. |
| Cells.OneToolCall | language-ports/codex-code-mode-host/probe.c:113-124 | At most one tool call is ever answered. |
| Paths.CheckSymlink | support/audit.py:245-292 | Accepts exactly a target that mentions no build or host path and either goes straight down from a standard directory or, being relative, never leaves the package at any step and has a normal form below a standard directory. |
| Paths.CheckSymlinks | support/audit.py:245-292 | Accepts a payload exactly when every link in it is accepted. |
| Paths.Walk | support/audit.py:272-282 | The stack of names fails exactly when some step leaves the root, and else holds the lexical normal form. |
| Paths.NormalDrops | support/audit.py:272-282 | The normal form, defined from the end of the walk, has as many names as the walk is deep, and going up drops its last. |
| Paths.StepInside | support/audit.py:272-282 | A step that goes up from the root leaves it for good. |
| Paths.CheckRuntimeComponent | support/audit.py:443-489 | Accepts exactly an entry that stands for a directory inside a runtime library tree: below the object's directory without leaving the package, or absolute and canonical. |
| Paths.WalkCanonical | support/audit.py:452-469 | The stricter walk of a search path: an empty or dot part fails as well. |
| Paths.OriginAsAbsolute | support/audit.py:443-489 | An origin-relative entry and its normal form spelled absolutely stand for the same directory, so they are accepted together. |
| Paths.SplitJoin | support/audit.py:443-489 | Joining plain names with slashes and cutting again gives the names back. |
| Paths.ComparePayloads | support/audit.py:295-327 | Accepts exactly when the paths are the same and kind, mode, file digest and link target agree on each; for payloads as the readers make them, exactly when they are equal. |
| PathTexts.AcceptedStays | support/audit.py:271-292 | Told of the texts: an accepted relative target, cut at its slashes, never leads above the package on the way from the directory in the link's own path; one that never does is accepted exactly when it ends below a standard directory. |
| PathTexts.ClimbsOut | support/audit.py:272-279 | A target that begins with more ".." than the link has directories above it is refused. |
| PathTexts.AbsoluteTarget | support/audit.py:258-270 | An absolute target of plain names is accepted exactly when the first is a standard directory. |
| PathTexts.SuspectIff | support/audit.py:340-347 | What makes a target suspicious is one of the marks standing anywhere inside it. |
| PathTexts.OriginLeads | support/audit.py:443-470 | An entry after either origin token stands for where its parts lead from the object's directory, if none climbs above the package. |
| PathTexts.OtherEntry | support/audit.py:443-477 | An entry that is no origin token, does not go on with a slash after one, and is not absolute is refused. |
| PathTexts.LibraryText | support/audit.py:436-440 | An absolute entry of plain names is accepted exactly at or below /lib, /lib64, /usr/lib or /usr/lib64, as text. |
| Versions.ComparePlaces | pup/http/pup_http/views.py:25-29 | Padding with zeros compares by the first place that differs, and finds versions equal exactly when all places are. |
| VersionNumbers.DottedCmp | pup/http/pup_http/views.py:25-46 | The versions spelled by two lists of numbers compare by the first number that differs, missing ones being zero. |
| VersionNumbers.SqlitePairs | pup/http/pup_http/views.py:36-44 | For SQLite an integer of at least seven digits compares with every numeric version as the dotted version of its last three pairs of digits and what stands before them. |
| VersionNumbers.NumericIff | pup/http/pup_http/views.py:18 | A version is numeric exactly when it is numerals joined by dots. |
| VersionNumbers.NaturalCmp | pup/http/pup_http/views.py:73-82 | Where not both are numeric, the first part that differs decides, words before numbers and less before more, and then the folded texts. |
| Numerals.ValueDecimal | pup/http/pup_http/views.py:46 | A numeral's value is the number that repeated division spells so. |
| Numerals.LongerIsGreater | pup/http/pup_http/views.py:46 | Without leading zeros the longer numeral is the greater. |
| Numerals.FirstDigit | pup/http/pup_http/views.py:46 | Of two numerals of one length the first digit that differs decides. |
| Versions.Antisymmetric | pup/http/pup_http/views.py:64-82 | Swapping two versions swaps the answer, for all strings. |
| Versions.Transitive | pup/http/pup_http/views.py:64-82 | The comparison is transitive among numeric versions, and wherever at most one of the three is numeric. |
| VersionSpellings.ConsistentIff | pup/http/pup_http/views.py:64-82 | Two numeric versions chain with every version that is not numeric exactly when their texts fit: they are one text, or not two spellings of one version; for SQLite, an encoded integer beside a version that is not one must be no larger than its first number, or later. |
| VersionSpellings.FitsIff | pup/http/pup_http/views.py:64-82 | That is exactly when the numeric and the natural order of the two agree. |
| VersionSpellings.NumericNatural | pup/http/pup_http/views.py:49-56 | The natural parts of a numeric version are its numbers. |
| VersionKinds.ConsistentAgreeing | pup/http/pup_http/views.py:64-82 | A pair whose two orders disagree is broken by some version that is not numeric; a pair whose orders agree by none. |
| VersionKinds.MixedNotTransitive | pup/http/pup_http/views.py:64-82 | They need not: 1 is below 1-0, which is below 1.0, which equals 1. |
| Versions.SqliteIntegers | pup/http/pup_http/views.py:36-44 | SQLite's integer versions from 1000000 up compare as integers. |
| Versions.SqliteDotted | pup/http/pup_http/views.py:36-46 | And stand to a dotted version as to the integer that spells it. |
| Versions.NaturalVersionParts | pup/http/pup_http/views.py:49-56 | The parts read the maximal runs of digits and of letters in the version, all of them and in order: the value of the digits, or the letters folded. |
| Versions.FindRuns | pup/http/pup_http/views.py:50 | The components that are found are those maximal runs. |
| Versions.FindWhole | pup/http/pup_http/views.py:50 | Text of one class is one component, or none where it is neither digits nor letters. |
| Versions.FindCut | pup/http/pup_http/views.py:50 | Components never reach across a change of class; with the law before, this determines them. |
| Versions.StripMiddle | pup/http/pup_http/views.py:66-67 | Stripping removes white space at both ends, all of it, and nothing else. |
| Catalogue.GroupOrder | pup/http/pup_http/views.py:93-99 | Within a group that is all numeric, or in which any two numeric versions fit, the comparison of packages is a total preorder. |
| Catalogue.Latest | pup/http/pup_http/views.py:91-104 | The entry that is kept is at least every other of such a group, and the first of those. |
| Catalogue.LatestAgree | pup/http/pup_http/views.py:91-104 | Whatever the input order, the versions kept compare equal. |
| Catalogue.DedupPackages | pup/http/pup_http/views.py:85-106 | One entry for every text of name, dash and architecture and no two of one text, by name; each the latest of its group where the group is such: no package of the same text has a later version. |
| Catalogue.GroupPackages | pup/http/pup_http/views.py:87-90 | The groups are the packages under each key, in order. |
| Catalogue.SortByName | pup/http/pup_http/views.py:106 | The same entries, in the order of their names. |

## Left out
- GuestRuns.RunGuest: waiting, process control and the tail of the log after a failure are not modelled; the looks and the clock are given.
- Verdicts.EvaluateOutput: starts from cleaned, complete lines of one kind each; terminal escapes, kernel log removal, the patterns for fatal text and status lines, and line separators other than newline are not modelled.
- Migrations.MigrateOne: what the bucket answers to a look at an object is the object's description; retries and failures of that request, and the migration of a whole manifest, are not modelled.
- Suites.ReadWrite: digits are the ten ASCII digits.
- Publication.Safety: the manifest that the migration builds first, which refuses duplicate and conflicting names, is not modelled; records of one name are taken to agree at the start. Two records of one name may both be inserted, as the code allows; only their digests are proved to agree. The conflict answer and the look at the object after it are one step, because published objects are never deleted.
- Publication.StepInv: authorisation, request parsing and the digest algorithm are not modelled; the digest is any function, and object metadata other than the SHA-1 and size is left out.
- Trees.Destination.MergeTree: file digests stand for contents, symbolic links have no mode, and time stamps are not modelled.
- Framing.Connection.Write: `transfer` is one function with a direction flag in the source and two methods here; the deadline is the end of the given attempts.
- Lines.LineReader.Response: what a line is judged to be is a parameter, because the parser of the App Server qualifier repeats the one modelled here.
- Cells.Probe.Execute: the link from the token array to the fields of a message is `JsonParser.Parser.Field` and not repeated; request texts, their size limit and a failing write are not modelled.
- Cells.Probe.Shutdown: closing the pipe, the end of the output and the exit status of the host are process control.
- Paths.CheckSymlinks: error messages and which of several errors is reported are not modelled; nor is that for ComparePayloads.
- Paths.CheckRuntimeComponent: the file name's own directory is assumed to hold no "..", which is how the payload is read from a directory tree.
- Catalogue.Latest: the stable descending sort is modelled by the entry it puts first, which is determined only where the comparison is a total preorder; for a group in which two spellings of one version stand beside versions that are not numeric only membership is claimed.
- Versions.Antisymmetric: integers are unbounded; the interpreter's limit on the number of digits is not modelled.
- Installers.Installer.Run: extraction itself, and the choice among members that collide on a file system without case, are not modelled.
- Builds.BuildAll: preparing the sysroot and building are one outcome for each package.
- JSON parser of the App Server qualifier: repeats the shape of the one modelled.
- Terminating a yielded cell and the fixed sequence of qualification phases: calls of the operations modelled.
- Package recipes, toolchain provisioning, ELF and libtool text checks, HTTP, Datastore and archive formats: no algorithm of their own.
- Web pages, credentials, command lines and logging.
