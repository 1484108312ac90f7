# MDP2P: what the protocol guarantees, verified

MDP2P publishes Markdown sites under names (`md://name`). A naming server maps a name to a record signed by
the site's author; the record commits to the hash of a signed manifest; the manifest lists the files and
their hashes; the files come from whichever peers offer them. Neither the naming server nor any peer is
trusted. There are two implementations, the Python reference and a Rust core and node.

This project models the code that carries that trust, in Dafny, and proves what it guarantees. Code that
works on state is imperative here too: classes with the stores' fields, methods with the programs' loops,
each proved against a function of its inputs or of the old state; the theorems are about those functions, over
all inputs, all runs of the server, all interleavings and all points of failure.

| files | subject |
|---|---|
| `Text`, `Json`, `Ordering`, `Wrappers` | UTF-8, JSON values, orders on strings |
| `Printer`, `Reader`, `Form` | canonical JSON, an independent reader that inverts it, and the canonical form told from the bytes alone |
| `Paths`, `Records`, `Bundle`, `BundlePython` | names and paths, signed records, acceptance of a downloaded bundle in Rust and in Python |
| `BundleOrder` | the documented order of those checks, and exactly when the program keeps to it |
| `Disk`, `Storage`, `Seeding` | a directory whose operations may fail at any time, the staged write and swap, serving what was written |
| `Terms` | names, paths, records and acceptance told member by member, without the checks' own helpers |
| `Clashes`, `Serving` | which accepted sites can be written at all, and what a node answers to whom |
| `PyDict`, `Stores`, `LastWriterWins`, `NamingServer`, `NamingRules`, `NamingHistory`, `Paging`, `Listings` | the naming server: Python dictionaries, its stores, its handlers, its reasons to refuse, its runs, its paged listings |
| `Pins`, `Seeders`, `Fetching` | trust on first use, trying seeders, a whole fetch |
| `Selection`, `Scoring`, `Weights`, `Moderation`, `Reading`, `Strangers`, `Inboxes` | reviewer sortition, scoring, what strangers can do to a content, what readers and reviewers get to see, and runs in which strangers decide or silence everybody |
| `Codec`, `Wire`, `Messages`, `Spelling`, `Answers` | varints and protobuf fields, length-prefixed framing, messages, messages that are not in canonical form, and what fits in an answer |
| `Publishing` | the author's side, from the files to a fetch that accepts them |

The results that span the most code:

- **One text, one value.** `Form.OneCanonicalForm`: a value has exactly one text in canonical form, told without the
  printer, and the printer prints it; `Terms.AcceptedInTerms` tells acceptance in the same way.
- **Content binding.** `Reader.CanonicalInjective` (the printer loses nothing) gives `Bundle.OneRefOneSite`: one
  manifest reference, one site, whoever serves it, or a SHA-256 collision is exhibited.
- **From author to reader and on.** `Publishing.PublishedIsFetched`, `Clashes.PublishedIsStored`, `Fetching.FetchSite`,
  `Fetching.EveryVisitorSeeds`: what an author publishes is registered, resolved, accepted, written, and served
  again to others, who accept it, under exact conditions on paths, encoding, size, date and faults of the disk. It
  also shows that the hypotheses of the other theorems can be met.
- **Who rules a name.** `Fetching.PinnedKeyRules` and `Pins.FetchesKeepOneKey`, against any naming server;
  `Pins.HonestStoreNeverAlarms` for an honest one.
- **Who may review.** `NamingHistory.EveryReviewWasAssigned` over every run of a strict server, and with the
  scorer `Reading.StrangersNeverHide`; `Strangers.StrangersDecide` gives runs that show the limit.
- **Failure.** `Storage.SiteStore.WriteSite`: any operation may fail and a crash may strike at any moment. Without
  a failure a write succeeds exactly for a valid name and files that a directory can hold (`Storage.Storable`).

SHA-256 is a parameter, a function from bytes to a digest; no result assumes it injective except where it says so.
Ed25519 is a parameter, a predicate on key, signature and message. Clocks, network answers, completion orders
and failures are arbitrary. A Dafny `char` is a Unicode scalar value. Check everything with
`dafny verify dfyconfig.toml`.

Where code and documentation disagree, the model follows the code:

- The acceptance rules (`rust/mdp2p-core/src/fetch.rs:121-124`) list the checks on a bundle as steps over all files; the
  code checks shape where it needs it, paths along with sizes, and extensions along with hashes. `BundleOrder.DocumentedExactly` says for which responses
  the reason given is the documented one; `SizeHidesBadPath`, `HashHidesExtension` and `PathHidesShape` are the
  three ways to differ. Both orders accept the same responses.
- `naming.py:24-25` says that pages of a listing fit in a message however many records accumulate; authors have no
  length limit, and `Listings.FewNamesEndListing` gives runs that end all listings; three names are enough and two are not
  (`Listings.LongAuthors`, `Listings.TwoNamesAreListed`). `Listings.FitsExactly` and
  `Paging.ListAll` say when a listing completes.
- `review/selection.py` describes the rank as a hash of content key and reviewer key; the code puts a zero byte
  between them. The results hold for every rank function.
- Publishing (`bundle/manifest.py:54-75`) checks count and size on disk, but neither paths nor the size of the message: a
  site with a backslash in a file name, with more than ten levels, or whose text takes more than 100 MiB once
  escaped is registered and can then be fetched by nobody (`Publishing.ServableIffSound`,
  `Publishing.BackslashIsPublished`, `Publishing.AccentedSiteIsPublished`). `Publishing.PublishedIsFetched` has the
  exact condition.
- A pin entry without a textual key makes the Python client stop and the Rust client trust any key
  (`Pins.ClientsAgree`, `Pins.OneKeyExactly`).
- Keeping one signal per source by severity does not make scores monotone (`Scoring.LowersExactly`).
- A bundle passes the acceptance rules in order to be written (`rust/mdp2p-node/src/store.rs:118-136`), but neither they
  nor the node's second look at the paths ask whether the files can stand in one directory: bundles are accepted that nobody can
  ever store (`Clashes.NestedIsNeverStored`, `Clashes.InsideManifestIsNeverStored`; `Clashes.StorableMeans` is the
  exact condition).
- A store that keeps the newest record depends on the order of arrival exactly when several tie for the newest
  (`LastWriterWins.OrderIgnoredExactly`).
- Reviews are served in one message without pages. If they do not fit, readers see none and show the content:
  `Reading.AnswerFitsExactly`, `Reading.SilencedShows`. The limit on a request is on its bytes as they come, that on an
  answer on escaped text, up to six times as long (`Spelling.PrintsAtMostSixfold`); so three reviews, and one
  assignment, can silence all (`Strangers.ThreeReviewersSilence`), and two cannot (`Reading.TwoReviewsAreHeard`). It
  is the same with the inbox of a reviewer (`Inboxes.FewAssignmentsEndInbox`, `Inboxes.TwoAssignmentsAreRead`).

## Model

| member | source | states |
|---|---|---|
| `Text.ByteOrderIsCodePointOrder` | `rust/mdp2p-core/src/canonical.rs:59-64` | Byte-wise order on UTF-8 encodings is code point order, for all strings: the Rust printer and Python's `sort_keys` order object keys alike |
| `Text.SortedKeys` | `rust/mdp2p-core/src/canonical.rs:59-64` | The sorted keys are strictly increasing in byte order and are exactly the keys of the object, each once |
| `Text.IncreasingUnique` | `rust/mdp2p-core/src/canonical.rs:59-64` | There is only one strictly increasing listing of a set of keys, so the printed order is determined by the data |
| `Text.Utf8RoundTrip` | `rust/mdp2p-node/src/store.rs:180-181` | Decoding what was encoded gives the text back |
| `Text.DecodedIsEncoded` | `bundle/serialization.py:44-47` | The decoder is strict: bytes that decode are exactly the encoding of what they decode to, so serving a file as text loses no byte |
| `Text.Utf8Layout` | `rust/mdp2p-node/src/store.rs:118-129` | The bytes of a character are laid out as section 3 of RFC 3629 says: their number shows in the first, the others are marked, their bits are the character, and no shorter form would do |
| `Printer.WriteString` | `rust/mdp2p-core/src/canonical.rs:80-101` | Pushing character by character onto the shared buffer appends exactly the quoted, ASCII-only, `\uXXXX`-escaped text, with surrogate pairs above U+FFFF |
| `Printer.WriteValue` | `rust/mdp2p-core/src/canonical.rs:33-78` | Fails exactly on values that hold a float anywhere; otherwise appends the canonical text and leaves what was in the buffer |
| `Printer.WriteCanonical` | `rust/mdp2p-core/src/canonical.rs:27-31` | Returns bytes exactly for float-free values, and then the canonical ones |
| `Reader.EscapedRoundTrip` | `rust/mdp2p-core/src/canonical.rs:80-101` | An independent reader of section 7 of RFC 8259 inverts string escaping for every text, surrogate pairs included, in front of any suffix |
| `Reader.IntegerRoundTrip` | `rust/mdp2p-core/src/canonical.rs:33-47` | Printed integers from -2^63 to 2^64-1 read back, in front of any suffix that does not start with a digit |
| `Reader.ItemsRoundTrip` | `rust/mdp2p-core/src/canonical.rs:48-57` | Array items read back from any index on |
| `Reader.MembersRoundTrip` | `rust/mdp2p-core/src/canonical.rs:58-76` | Object members read back from any key on |
| `Reader.ValueRoundTrip` | `rust/mdp2p-core/src/canonical.rs:33-78` | The reader inverts the printer on every float-free value and stops exactly where the value ends, in front of any suffix that cannot continue a number |
| `Reader.CanonicalInjective` | `rust/mdp2p-core/src/canonical.rs:27-101` | Equal canonical bytes mean equal data: a signature or a reference commits to the value |
| `Form.OneCanonicalForm` | `rust/mdp2p-core/src/canonical.rs:1-18` | The canonical form told from the bytes alone, without the printer: printable ASCII, no white space outside strings, short escapes where there are any, other escapes in lower-case hex and only where needed, no signed zero, names increasing. Every float-free value has exactly one text of this form, and the printer prints it |
| `Paths.ValidPathStaysInside` | `rust/mdp2p-core/src/paths.rs:21-31` | A valid path resolves strictly below the directory it is joined to, at most ten levels down |
| `Paths.ValidPathsDoNotCollide` | `rust/mdp2p-core/src/paths.rs:21-31` | Two valid paths that resolve to one location are the same path |
| `Paths.JoinSplit` | `bundle/paths.py:48-49` | Joining the segments a path splits into gives the path back |
| `Paths.PathRulesAgree` | `bundle/paths.py:38-63` | Rust and Python accept the same paths under every base directory, symbolic links aside |
| `Paths.UriRulesAgree` | `bundle/paths.py:15-35` | Rust and Python accept the same site names |
| `Terms.UriInTerms` | `rust/mdp2p-core/src/paths.rs:8-19` | A site name is valid exactly if it is 1 to 255 letters, digits, dots, underscores and hyphens, the first a letter or digit, no two dots in a row |
| `Terms.PathInTerms` | `rust/mdp2p-core/src/paths.rs:21-31` | A path is valid exactly if it is one to ten segments joined by slashes, none empty, `.` or `..`, without backslash or NUL |
| `Records.NameRecordVerifies` | `rust/mdp2p-core/src/records.rs:159-172` | A name record verifies exactly when it is an object with the five fields, an integer timestamp and a key that signed its canonical JSON |
| `Terms.NameRecordInTerms` | `rust/mdp2p-core/src/records.rs:159-172` | The same with the clock, member by member: the five fields, a date within the limit by 64-bit distance, and a signature by the key the record names |
| `Terms.AssignmentInTerms` | `rust/mdp2p-core/src/records.rs:233-269` | An assignment verifies exactly if it has its six fields, names reviewers, has a positive deadline, holds the content key of its own name and key, is in time, and is signed by the key it names |
| `Terms.AnswerRefusedInTerms` | `rust/mdp2p-core/src/fetch.rs:48-75` | With which reason a naming answer is refused: no signed record, a record that does not verify, another name, a field of the wrong kind |
| `Records.ResolvedIffVouched` | `rust/mdp2p-core/src/fetch.rs:48-75` | A naming answer is accepted, with a given result, exactly when it carries a record that says this about the requested name and is signed by the key it names |
| `Records.ContentKeyBinds` | `rust/mdp2p-core/src/records.rs:72-77` | The content key of a name and a key without a colon belongs to no other name and key, however those are spelt, or a SHA-256 collision is exhibited |
| `Records.AssignmentIsThePublishers` | `rust/mdp2p-core/src/records.rs:233-269` | An assignment that verifies for the content key of a name and a key is signed by that key, whatever its publisher field holds, or a collision is exhibited |
| `Records.DriftIsDistance` | `rust/mdp2p-core/src/records.rs:125-138` | The drift computed in 64 bits is the real distance exactly when the difference fits and is not the least number |
| `Records.FarTimestampsWrap` | `rust/mdp2p-core/src/records.rs:125-138` | Which timestamps pass a drift limit in 64-bit arithmetic: those within it, and those at or beyond 2^63 seconds that the formula names |
| `Bundle.CheckDownloadedBundle` | `rust/mdp2p-core/src/fetch.rs:126-206` | The bundle check with its three loops: accepts exactly the acceptable responses and otherwise returns the first failing check in program order |
| `Bundle.AcceptedIffAcceptable` | `rust/mdp2p-core/src/fetch.rs:126-206` | Acceptance is the conjunction of all listed conditions, stated without an order, and an accepted bundle delivers exactly the files of the response, in key order, with the bytes of their texts |
| `Terms.AcceptedInTerms` | `rust/mdp2p-core/src/fetch.rs:126-206` | Acceptance told from the response member by member, without the checks' own helpers and with the limits as numbers: accepted exactly if signed, named, referred to and dated as expected, at most 1000 files of 52,428,800 bytes, each a text at a valid path ending in `.md`, listed with the hash of its bytes in the last entry for it, and nothing else listed |
| `Terms.DeliveredIsMarkdown` | `rust/mdp2p-core/src/fetch.rs:197-204` | Every path delivered is some stem followed by `.md` |
| `Terms.RefusedIsNotMarkdown` | `rust/mdp2p-core/src/fetch.rs:197-204` | A path is refused as not Markdown only if it is one of the files and has no such stem |
| `Terms.OnlyMarkdownIsMissing` | `rust/mdp2p-core/src/fetch.rs:197-204` | If all else is right, the response is refused exactly if some path has no such stem, and for the first such path |
| `Bundle.RejectionIsHonest` | `rust/mdp2p-core/src/fetch.rs:126-206` | The reported reason really holds, and no earlier stage (shape, signature, name, reference, expiry, count) fails; at the count, "malformed" means a declared count that is no count |
| `Bundle.ScanStops` | `rust/mdp2p-core/src/fetch.rs:165-177` | The first loop stops at the first file at which anything is wrong, with what is wrong there |
| `Bundle.TooLargeExactly` | `rust/mdp2p-core/src/fetch.rs:165-177` | "Too large" is reported exactly when some run of files from the start, each with a valid path, is over the limit, whatever comes after it |
| `BundleOrder.DocumentedExactly` | `rust/mdp2p-core/src/fetch.rs:121-206` | The program gives the documented reason exactly for responses in order: with a fault of shape below the surface, nothing that is checked earlier is wrong; without one, the files before the first invalid path fit the limit and those before the first non-Markdown file have the right hashes, as far as the checks get |
| `BundleOrder.DocumentedAcceptsTheSame` | `rust/mdp2p-core/src/fetch.rs:121-206` | The documented steps and the program accept the same responses |
| `BundleOrder.SizeHidesBadPath` | `rust/mdp2p-core/src/fetch.rs:165-177` | A response that is sound up to its count, with an oversized file before an invalid path, is refused as too large where the documentation says bad path |
| `BundleOrder.HashHidesExtension` | `rust/mdp2p-core/src/fetch.rs:197-204` | One with a wrong hash before a file that is not Markdown is refused as corrupted where the documentation says not Markdown |
| `BundleOrder.PathHidesShape` | `rust/mdp2p-core/src/fetch.rs:165-177` | One with a content that is no text behind an invalid path is refused for the path where the documentation says malformed |
| `BundleOrder.AnyFilesCanBeCarried` | `rust/mdp2p-core/src/fetch.rs:126-161` | For any library and any author who can sign: any files, listed in any way, can come in a response that is sound up to its count, so the three cases above occur |
| `BundleOrder.PathsAndSizes` | `rust/mdp2p-core/src/fetch.rs:163-177` | The first loop gives the reason of the two documented steps exactly when the files before the first invalid path fit the limit |
| `BundleOrder.ExtensionsAndHashes` | `rust/mdp2p-core/src/fetch.rs:197-204` | The third loop gives the reason of the two documented steps exactly when the files before the first non-Markdown one have the right hashes |
| `Bundle.OneRefOneSite` | `rust/mdp2p-core/src/fetch.rs:126-206` | Two responses accepted for one reference, from any seeders, under any keys and at any times, have equal manifests and deliver equal files, or a SHA-256 collision is exhibited |
| `Bundle.RefDeterminesSite` | `rust/mdp2p-core/src/records.rs:81-85` | With an injective hash, a manifest reference determines the manifest and every byte of the site |
| `Bundle.ScanFiles` | `rust/mdp2p-core/src/fetch.rs:163-177` | The loop over paths, texts and the running total computes the scan |
| `Bundle.ReadEntries` | `rust/mdp2p-core/src/fetch.rs:179-193` | The loop over the manifest's entries keeps the last hash of each path and fails on an entry without path or hash |
| `Bundle.CheckHashes` | `rust/mdp2p-core/src/fetch.rs:197-204` | The loop over accepted files reports the first that is not Markdown or does not match its hash |
| `BundlePython.RustIsPythonOnWellTyped` | `peer/peer.py:648-683` | Rust accepts a response exactly when it is well typed and Python accepts it, for any order of Python's dictionary and any site directory; so whatever Rust accepts, the reference accepts |
| `BundlePython.ValidateBundlePayload` | `bundle/serialization.py:55-98` | Python's own form of the content checks returns the files in dictionary order exactly when its conditions hold, and raises otherwise |
| `Terms.PythonTakesOnlyMarkdown` | `bundle/serialization.py:93-97` | Python, too, accepts only files whose paths end in `.md` |
| `BundlePython.CollectFiles` | `bundle/serialization.py:72-84` | The loop collects every file exactly when all are texts at valid paths and fit the limit together |
| `BundlePython.SamePayload` | `bundle/serialization.py:55-98` | The content checks of both programs agree on well-typed manifests, whatever the order of the dictionary |
| `BundlePython.TotalIgnoresOrder` | `bundle/serialization.py:74-84` | The total size does not depend on the order in which the files are visited |
| `BundlePython.EntriesAgree` | `bundle/serialization.py:86-92` | Both programs read the same path-to-hash map from a manifest, except that Rust also refuses entries without a textual hash |
| `BundlePython.ExpiryAgrees` | `bundle/manifest.py:88-93` | Both programs agree on expiry, except that Rust treats a non-integer date as expired |
| `Terms.PythonInTerms` | `bundle/manifest.py:88-93` | What Python compares, member by member: the key re-encoded, and dates and counts as numbers, a boolean counting one or zero |
| `Storage.HiddenNames` | `rust/mdp2p-node/src/store.rs:109-112` | Staging and backup names start with a dot, are never valid site names, and differ |
| `Storage.SwapIntoPlace` | `rust/mdp2p-node/src/store.rs:186-206` | It succeeds unless an operation fails, and then nothing of its work is left. Whatever rename or removal fails: on success the new site is in place, on error the old state is back unless two renames failed, the restoring one among them, and at every moment a crash leaves the target absent, fully old or fully new, with a complete copy still there |
| `Storage.StageAndSwap` | `bundle/serialization.py:101-130` | The same for staging, writing, swapping and cleaning up, with any write failing; if none fails, it succeeds exactly for files that a directory can hold, reports the first invalid path if the files before it could be written, and leaves no staging directory either way |
| `Storage.SiteStore.WriteSite` | `rust/mdp2p-node/src/store.rs:99-146` | The whole write: it succeeds only if the name is valid and a directory can hold the files, and then always if no operation fails; without a failure no staging or backup directory is left; the index changes exactly on success; on failure the site is as before, or parked under the backup name if two renames failed; every intermediate state is crash-safe; other sites are untouched |
| `Clashes.StorableMeans` | `rust/mdp2p-node/src/store.rs:118-136` | A directory can hold files at valid paths exactly when no path is a proper prefix of another and none passes through `manifest.json` or `manifest.sig` |
| `Clashes.PairIsAccepted` | `rust/mdp2p-core/src/fetch.rs:126-206` | For any library and any author who can sign: any two valid Markdown paths can come in an accepted response, which can be stored exactly when neither is inside the other or inside the manifest or signature file |
| `Clashes.NestedIsNeverStored` | `rust/mdp2p-node/src/store.rs:118-129` | Accepted does not mean storable: from any author, `a.md` and `a.md/b.md` together are accepted and can never be written |
| `Clashes.InsideManifestIsNeverStored` | `rust/mdp2p-node/src/store.rs:130-134` | Nor can an accepted `manifest.json/x.md`, from any author |
| `Storage.CopiesSurvive` | `rust/mdp2p-node/src/store.rs:99-206` | Over any sequence of writes of any sites, by any processes, each done, failed or cut off by a crash anywhere, a site of which there was a whole copy keeps one, in place or under a backup name |
| `Storage.SiteStore.BundleResponse` | `rust/mdp2p-node/src/store.rs:161-184` | The loop over the manifest's entries serves exactly the listed files, or nothing if one is invalid, missing or not UTF-8 |
| `Storage.SiteStore.HandleRequest` | `rust/mdp2p-node/src/store.rs:79-95` | Every request gets the answer determined by the index and the disk, error answers included |
| `Serving.ManifestIsAnswered` | `rust/mdp2p-node/src/store.rs:86-88` | A `get_manifest` request for a site the node has written is answered with type `manifest`, the accepted manifest, and a signature that verifies with it under the author's key |
| `Serving.BundleIsAnswered` | `rust/mdp2p-node/src/store.rs:85-94` | A `get_bundle` request is answered with type `bundle` and, until it expires, a response that is accepted and delivers the same files |
| `Serving.OthersAreErrors` | `rust/mdp2p-node/src/store.rs:79-95` | Everything else is answered with an error that says what is wrong: unknown site, unknown kind of request, or a site that cannot be read |
| `Storage.SiteStore.Rescan` | `rust/mdp2p-node/src/store.rs:35-54` | The index holds exactly the valid names that visible directories with a readable manifest claim, whatever order they are read in |
| `Serving.WrittenIsIndexed` | `rust/mdp2p-node/src/store.rs:35-54` | After a restart a written site is indexed under its name again, and staging and backup directories never are |
| `Seeding.WrittenFileReadsBack` | `rust/mdp2p-node/src/store.rs:118-129` | A Markdown file written by the store reads back with exactly its text |
| `Seeding.ManifestReadsBack` | `rust/mdp2p-node/src/store.rs:153-159` | Manifest and signature written by the store load again, the signature trimmed |
| `Seeding.WrittenWhere` | `rust/mdp2p-node/src/store.rs:130-134` | Manifest and signature are written to `manifest.json` and `manifest.sig` beside the files |
| `Seeding.ServesAccepted` | `rust/mdp2p-node/src/store.rs:161-184` | What is served from a written site is the accepted manifest and exactly the accepted files |
| `Seeding.SeedingPreservesAcceptance` | `rust/mdp2p-node/src/store.rs:79-184` | What is served later from a written site passes the check again with the same key and reference and delivers the same files; expiry is the one reason it can be refused for |
| `Seeding.OtherSitesUnaffected` | `rust/mdp2p-node/src/store.rs:99-146` | Writing one site leaves every other site as it was |
| `PyDict.Dict.Put` | `naming.py:142` | Assigning to a key of a dictionary keeps the position of an old key and appends a new one |
| `Stores.NameStore.Set` | `naming.py:129-144` | First come, first served: another key or a timestamp that is not newer is refused and changes nothing; otherwise exactly this name's record is replaced |
| `Stores.SetNameGrows` | `naming.py:129-144` | No call drops or moves a name, changes its key or takes its timestamp back |
| `Stores.ReviewerStore.Set` | `naming.py:193-209` | An opt-in replaces the one under its key exactly when it is strictly newer |
| `Stores.AssignmentStore.Add` | `naming.py:263-278` | The loop delivers to every named reviewer, keeping slots that are as recent; the answer is ok even when all were kept |
| `Stores.AttachmentStore.Attach` | `naming.py:337-349` | A review replaces its reviewer's slot exactly when it is strictly newer, and is refused otherwise |
| `LastWriterWins.AddAssignmentSlot` | `naming.py:263-278` | Seen from one inbox slot, an assignment is stored exactly when the slot is empty or older |
| `LastWriterWins.OrderIgnoredExactly` | `naming.py:263-278` | For either kind of slot: what is left is the same in every order exactly when no two different records offered to it share the greatest timestamp |
| `LastWriterWins.InboxHoldsNewest` | `naming.py:263-278` | After any sequence of assignments each slot holds one offered for it whose timestamp no other exceeds, and is empty only if none was offered |
| `LastWriterWins.InboxIgnoresOrder` | `naming.py:263-278` | Every permutation of the assignments leaves the slot the same if and only if the newest one offered to it has its timestamp to itself; older ones may tie |
| `LastWriterWins.FirstAssignmentOfATieStays` | `naming.py:271-275` | Of two equally recent assignments offered to an empty slot the first stays |
| `LastWriterWins.AttachmentsHoldNewest` | `naming.py:337-349` | After any sequence of reviews each slot holds one offered for it whose timestamp no other exceeds, and is empty only if none was offered |
| `LastWriterWins.AttachmentsIgnoreOrder` | `naming.py:337-349` | Every permutation of the reviews leaves the slot the same if and only if the newest one offered to it has its timestamp to itself; older ones may tie |
| `LastWriterWins.FirstOfATieStays` | `naming.py:343-346` | Of two equally recent reviews offered to an empty slot the first stays |
| `NamingServer.Server.HandleRegister` | `naming.py:415-442` | Changes the stores as the step function says: refused requests change nothing, and the first failing test is the one reported |
| `NamingRules.RegisterTable` | `naming.py:415-442` | For each reason to refuse a registration, exactly what has to be wrong and what right before it, in terms of signature, key, date and the record held; accepted exactly if nothing is |
| `NamingHistory.ResolvesToNewest` | `naming.py:444-456` | In every run a name resolves exactly when a registration of it was accepted, to a record that was accepted and signed with the key it names; every accepted record of the name has that key and is no newer |
| `NamingHistory.ResolvesToRegistered` | `naming.py:415-456` | An accepted registration that no other accepted one of its name is newer than is what the name resolves to |
| `NamingServer.Server.HandleRegisterReviewer` | `naming.py:462-485` | As for names, on the reviewer registry |
| `NamingRules.ReviewerTable` | `naming.py:462-485` | The same for opt-ins |
| `NamingServer.Server.HandlePostAssignment` | `naming.py:498-526` | As for names, with the limits of the review rules before the inboxes change |
| `NamingRules.AssignmentTable` | `naming.py:498-526` | The same for assignments |
| `NamingServer.Server.HandleAttachReview` | `naming.py:540-568` | As for names, with the assignment looked up before the review is attached |
| `NamingRules.ReviewTable` | `naming.py:540-568` | The same for reviews |
| `NamingServer.Server.CheckAssignmentReviewers` | `naming.py:570-584` | Refuses more than sixteen reviewers, a repeated one, or one the registry does not know |
| `NamingServer.Server.CheckReviewWasAssigned` | `naming.py:586-597` | Refuses a review whose reviewer holds no assignment for the content, or that is dated after its deadline |
| `NamingHistory.NamesGrowAlongRun` | `naming.py:129-144` | Along every run names keep their key and their place, and their timestamps never decrease |
| `NamingHistory.NamesWereRegistered` | `naming.py:415-442` | Every stored name was put there by an accepted, verified request of the run |
| `NamingHistory.ReviewersWereRegistered` | `naming.py:462-485` | In every run a key is in the registry exactly if an accepted opt-in of the run names it, verifies under it, has a peer id and was dated within 300 seconds of the clock; the entry is such an opt-in, and none accepted for that key is newer |
| `NamingHistory.InboxWasAssigned` | `naming.py:498-526` | Every inbox entry was delivered by an accepted request of the run that named its owner |
| `NamingHistory.InboxOwnersAreRegistered` | `naming.py:570-584` | In a strict run every inbox owner is a registered reviewer, named in the assignment it holds |
| `NamingHistory.EveryReviewWasAssigned` | `naming.py:586-597` | In every run of a strict server each attached review was accepted after an accepted assignment of that content to that reviewer, signed by the key the content key derives from, with a deadline no earlier than the review, even if the assignment has since been replaced |
| `NamingHistory.OnlyThePublisherAssigns` | `review/record.py:194-198` | A review of what the key k publishes under the name u can only be attached after an assignment signed with k, or a SHA-256 collision is exhibited |
| `NamingHistory.NoLateReviews` | `naming.py:586-597` | By the server's clock a review is attached at most 300 seconds after its deadline |
| `NamingHistory.OpenServerNeedsNoAssignment` | `naming.py:553-556` | With the rules off, one unassigned key is enough: the provenance property is due to the rules |
| `NamingHistory.ReviewersAreFew` | `naming.py:570-597` | In a strict run the reviewers attached to a content number at most sixteen times its accepted assignments |
| `Paging.PageIsARun` | `naming.py:612-622` | For any offset and limit, usable or not, a page is a run of the list, at most 1000 long, and a next offset is given exactly when something is left |
| `Paging.PageAskedFor` | `naming.py:612-622` | Which page a client gets for the offset and limit it asks for, negative, missing, too large or no numbers |
| `Paging.ListAll` | `naming.py:661-680` | However registrations interleave with page requests, the client's loop collects the names in store order without a gap, as long as every page fits in a message; it ends complete, after 1000 pages with names left, or with an error at the first page that does not fit, and it is said exactly when which |
| `Paging.Ask` | `naming.py:408-411` | A page is answered exactly when its text is within a mebibyte; otherwise the answer is an error |
| `Paging.CompleteListing` | `naming.py:661-680` | A listing that ended on a null offset holds no name twice and every name present at the start, each record at least as new as then |
| `Listings.FitsExactly` | `naming.py:458-460` | A page fits exactly when the texts of its records and the commas between them leave room for the 42 bytes and the offset around them |
| `Listings.PageLength` | `naming.py:458-460` | The length of the text of a page of names |
| `Listings.NextIsAfterThePage` | `naming.py:612-622` | The offset an answer gives is where its page ends, and there is none at the end of the list |
| `Listings.PageArrives` | `wire.py:33-56` | A page that fits is read by the client as the server sent it |
| `Listings.ShortRecordsFit` | `naming.py:24-25` | As long as records take at most 2096 bytes each, every page fits, however many accumulate |
| `Listings.LongAuthorsStopListing` | `naming.py:24-25` | The documented claim is false: as soon as the escaped authors of some of the first 500 names reach a mebibyte, the first page does not fit |
| `Listings.FewNamesEndListing` | `naming.py:415-442` | A concrete run that ends all listings: a few registrations with a long author, each accepted and each in a request the server reads, and after any further requests, none of them signed with that key, the first page still does not fit |
| `Listings.LongAuthors` | `naming.py:24-25` | Seventeen registrations with an ASCII author of 62 KiB are such a run, and so are three with 62,000 DEL characters |
| `Listings.TwoNamesAreListed` | `naming.py:458-460` | Two are never enough: if all registrations came in requests the server reads, a page of at most two names fits |
| `Listings.ResolvedFits` | `naming.py:444-456` | Resolving has no such problem: a record that came in a request the server reads, in whatever form, fits in the answer |
| `Pins.PinStore.Check` | `rust/mdp2p-node/src/pinstore.rs:58-68` | The status of a key and a timestamp against the stored pin, an entry without a key counting as none |
| `Pins.PinStore.RecordVisit` | `rust/mdp2p-node/src/pinstore.rs:71-101` | Pins on the first visit; later raises the mark to the larger timestamp and keeps key, author and first visit |
| `Pins.PinStore.PyRecordVisit` | `peer/peer.py:474-480` | Python's two calls leave the same entry as Rust's one |
| `Pins.PinStore.Unpin` | `pinstore.py:93-100` | Removes exactly this name's pin and says whether there was one |
| `Pins.PinTellsOfFetches` | `peer/peer.py:415-480` | After any fetches the pin of a name tells of the first accepted one its key, author and time, and of the last one its time and timestamp |
| `Pins.NoPinWithoutFetch` | `peer/peer.py:415-480` | And there is none before a fetch of the name has been accepted |
| `Pins.ClientsAgree` | `pinstore.py:46-67` | On a shared file both clients see the same status where the entry holds a textual key; elsewhere Rust sees no pin, and Python raises if the key is absent and answers a mismatch if it is no text |
| `Pins.FetchesKeepOneKey` | `peer/peer.py:415-480` | Over any sequence of fetches, whatever the naming server answers, all records accepted for a name carry one key and timestamps that never decrease |
| `Pins.OneKeyExactly` | `rust/mdp2p-node/src/pinstore.rs:58-68` | That holds of all sequences of fetches if and only if the entry for the name, if there is one, holds a textual key |
| `Pins.HonestStoreNeverAlarms` | `pinstore.py:46-115` | With any registrations between the answer and the check of each fetch, and fetches of different names overlapping, a client whose pins come from one honest store never sees a mismatch or a rollback |
| `Pins.UnmarkedPinAlarmsExactly` | `pinstore.py:103-115` | A pin from before rollback protection raises a false alarm on the next visit exactly when the record's timestamp is negative |
| `Selection.RustSelect` | `rust/mdp2p-core/src/selection.rs:10-30` | Sorting, deduplicating, sorting pairs and taking n selects what Python's stable sort of the sorted set selects, for every rank function, colliding or not, and any order and repetition of the pool |
| `Selection.SelectionIsTheBest` | `review/selection.py:27-54` | As many as asked for if there are, members of the pool, none twice, and every member left out ranks behind every chosen one |
| `Selection.SortedInCodePointOrder` | `review/selection.py:40` | The sorted set is in code point order as well as in byte order |
| `Selection.LongerSelectionExtends` | `review/selection.py:53-54` | The choice for n is a prefix of the choice for n+1 |
| `Selection.NewcomerIsInserted` | `review/selection.py:53-54` | A new reviewer is inserted at its place and the others keep their order |
| `Selection.NewcomerDisplacesAtMostOne` | `review/selection.py:53-54` | A new reviewer displaces at most the last one chosen |
| `Scoring.DedupeBySource` | `trust/scorer.py:91-103` | The loop over the dictionary of best signals computes one signal per source, in order of first appearance |
| `Scoring.ScoreContent` | `trust/scorer.py:55-88` | Score, decision and breakdown are those of the deduplicated signals |
| `Scoring.KeptIsMostSevere` | `trust/scorer.py:91-103` | For each source that signals, a signal of greatest severity is kept, and nothing for any other source |
| `Weights.SubscriptionDecides` | `trust/scorer.py:106-110` | The first subscription to a peer decides its weight, within zero and the cap, whatever else is known of it |
| `Weights.TrustDecides` | `trust/scorer.py:112-118` | Without one, a trust level set by hand does, whatever the peer's signals were worth |
| `Weights.EqualCountsWeighTheDefault` | `trust/scorer.py:120-124` | With as many confirmed as disputed signals a peer weighs the default, within zero and the cap |
| `Weights.OneMoreConfirmed` | `trust/scorer.py:120-124` | One more confirmed signal adds the learning rate, up to the cap |
| `Weights.OneMoreDisputed` | `trust/scorer.py:120-124` | One more disputed signal takes it away, down to zero |
| `Weights.FiveConfirmed` | `trust/scorer.py:120-124` | Five confirmed signals weigh 0.6 under the default policy, and a fresh rejection then counts 1.8 |
| `Weights.ScoreRisesExactly` | `trust/scorer.py:55-88` | When peers gain weight and nothing else changes, a score rises exactly if a kept signal of positive severity comes from a peer that did |
| `Weights.UnratedCountsNothing` | `trust/scorer.py:71-74` | A verdict the policy does not rate counts nothing |
| `Weights.AgeInHalfLives` | `trust/scorer.py:127-137` | A signal halves once for every half-life of days in its age; without a usable date or age it counts in full |
| `Weights.DefaultPolicyIs` | `trust/policy.py:35-43` | The default policy: ninety days halve a signal, five points hide a content, two warn of it, a stranger weighs 0.1 |
| `Scoring.OneMoreSignal` | `trust/scorer.py:91-103` | What one more signal does to the score |
| `Scoring.LowersExactly` | `trust/scorer.py:99-102` | One more signal lowers the score exactly when a more severe one that contributes less replaces a kept one, or a new source contributes a negative amount |
| `Scoring.OldRejectionLowersScore` | `trust/scorer.py:99-102` | Scores are not monotone: an old rejection after a fresh warning of the same stranger lowers the score under the default policy |
| `Scoring.WeightIsCapped` | `trust/scorer.py:106-124` | No known peer weighs less than zero or more than the cap; an unknown one has the default weight |
| `Scoring.StrangersScoreLittle` | `trust/scorer.py:55-145` | Unknown sources score at most 0.3 each, however many signals they send |
| `Moderation.AttachmentsToSignals` | `peer/peer.py:686-719` | The loop keeps exactly the entries that verify and belong to the content, in order |
| `Moderation.SignalsAreVerified` | `peer/peer.py:686-719` | Every signal is a review of this content signed by its source |
| `Moderation.SignalsEntryByEntry` | `peer/peer.py:686-719` | Each entry of an answer speaks for itself, in order |
| `Moderation.SignalOfOne` | `peer/peer.py:686-719` | One entry gives its signal, field by field, if it is a signed review of the content with a known verdict, and none otherwise |
| `Moderation.SourcesWereReviewers` | `peer/peer.py:686-719` | In every run of the server, the sources of a reader's signals are reviewers attached to the content |
| `Moderation.StrangersPerAssignment` | `trust/policy.py:35-43` | In a strict run reviewers unknown to the reader score at most 4.8 per accepted assignment |
| `Moderation.StrangersCannotHide` | `trust/scorer.py:140-145` | After at most one accepted assignment, reviewers unknown to the reader never bring the default policy to hide the content, going by the reviews the server holds |
| `Moderation.FreshRejections` | `trust/scorer.py:55-145` | Of n distinct unknown reviewers who reject, the reader hides the content exactly when n is at least seventeen |
| `Reading.AnswerFitsExactly` | `naming.py:599-609` | The server can answer with the reviews of a content exactly when their texts and the commas between them leave room for the 35 bytes around them in a mebibyte |
| `Reading.OneAssignmentIsHeard` | `peer/peer.py:609-617` | In a strict run with at most one accepted assignment of a content it has at most sixteen reviews, and a reader gets them all if each would fit in a request in canonical form; in another form a request can hold more |
| `Reading.TwoReviewsAreHeard` | `peer/peer.py:609-617` | In every run whose reviews came in requests the server reads, in whatever form, two reviews of a content fit in an answer, and the reader gets them |
| `Reading.SilencedShows` | `peer/peer.py:609-617` | Reviews that do not fit count for nothing: the content is judged as one without reviews |
| `Reading.LongCommentsSilence` | `naming.py:599-609` | Reviews do not fit, whatever else is attached, as soon as the escaped texts of some comments reach a mebibyte |
| `Reading.StrangersNeverHide` | `peer/peer.py:590-620` | After at most one accepted assignment strangers never hide a content from a reader, whether their reviews fit or not |
| `Inboxes.InboxFitsExactly` | `naming.py:528-538` | A reviewer can read the inbox exactly when its assignments and the commas between them leave room for the 35 bytes around them in a mebibyte |
| `Inboxes.TwoAssignmentsAreRead` | `naming.py:528-538` | If all assignments came in requests the server reads, an inbox of at most two can be read |
| `Inboxes.FewAssignmentsEndInbox` | `naming.py:498-538` | A concrete run, every request accepted and every assignment in a request the server reads, after which the inbox of a reviewer cannot be sent |
| `Inboxes.ThreeNames` | `naming.py:528-538` | Three assignments of contents whose names hold 62,000 DEL characters are such a run |
| `Strangers.RunHolds` | `naming.py:570-597` | A run of a strict server for any number of strangers with keys of their own, sixteen to an assignment: every request is accepted, there are as many assignments as that takes, and exactly their reviews are attached |
| `Strangers.StrangersDecide` | `peer/peer.py:609-620` | After that run a newcomer scores 0.3 for each stranger if the reviews fit in an answer, and otherwise shows the content; so strangers hide it exactly if they are at least seventeen, which takes two assignments, and their reviews fit |
| `Strangers.KeysMayBind` | `review/record.py:258-292` | The hypothesis of these runs can be met by signatures none of which verifies under two keys |
| `Strangers.ShortReviewsFit` | `naming.py:599-609` | If the comments are short enough, escaped, the reviews of that run fit |
| `Strangers.LongReviewsDoNotFit` | `naming.py:599-609` | If the escaped comments reach a mebibyte together, they do not |
| `Strangers.OneAssignmentIsSilenced` | `naming.py:599-609` | A run with one assignment, every request accepted and every review in a request the server reads, after which no reader, whoever it trusts, sees any review: it takes a comment that is within a request as it is and, escaped, reaches a mebibyte with the others |
| `Strangers.ThreeReviewersSilence` | `naming.py:599-609` | Three reviewers with 62,000 DEL characters each do that, and six with 31,000 accented letters each |
| `Codec.PutVarint` | `rust/mdp2p-node/src/codec.rs:143-153` | The shifting loop appends the varint of any 64-bit number |
| `Codec.GetVarint` | `rust/mdp2p-node/src/codec.rs:155-166` | The loop reads the varint at a position, stays in the buffer, and reports truncation and excess length as the reference function does |
| `Codec.VarintFitsWord` | `rust/mdp2p-node/src/codec.rs:155-166` | Whatever the bytes, the value read fits in 64 bits |
| `Codec.VarintRoundTrip` | `rust/mdp2p-node/src/codec.rs:143-166` | Every 64-bit number reads back, consuming exactly its own bytes |
| `Codec.Fields` | `rust/mdp2p-node/src/codec.rs:174-197` | On every input the loop ends and every slice is in bounds; fixed-width fields cut off by the end are skipped, not refused |
| `Codec.EncodedFieldReadsBack` | `rust/mdp2p-node/src/codec.rs:174-197` | A length-delimited field reads back in front of any further fields |
| `Codec.VarintFieldReadsBack` | `rust/mdp2p-node/src/codec.rs:178-183` | A varint field reads back without its value |
| `Codec.FixedFieldsAreSkipped` | `rust/mdp2p-node/src/codec.rs:191-193` | Fields of eight and four bytes are passed over, cut off or not, and no other wire type is accepted |
| `Codec.EncodeGetProviders` | `rust/mdp2p-node/src/codec.rs:200-208` | The request is the two fields, type and key |
| `Codec.RequestRoundTrip` | `rust/mdp2p-node/src/codec.rs:200-208` | The fields of an encoded request are its type and its key |
| `Codec.RequestAsksForProviders` | `rust/mdp2p-node/src/codec.rs:200-208` | As a receiver reads it: the tag of field 1 with the varint 3, then the key as field 2 |
| `Codec.DecodeProviders` | `rust/mdp2p-node/src/codec.rs:212-232` | The nested loops compute the providers of a message, skipping what does not parse |
| `Codec.DecodePeer` | `rust/mdp2p-node/src/codec.rs:218-226` | The inner loop computes the id and the addresses of one peer |
| `Codec.PeerFieldByField` | `rust/mdp2p-node/src/codec.rs:218-226` | What one more field of a peer changes: an id replaces those before it, parsed or not; an address that parses is added; nothing else |
| `Codec.ResponseRoundTrip` | `rust/mdp2p-node/src/codec.rs:212-232` | Any encoded list of providers comes back in order, without those whose id or address does not parse |
| `Wire.ReadExact` | `wire.py:21-30` | However the stream cuts its chunks, exactly the next n bytes, or nothing if the stream ends before |
| `Wire.SendFramed` | `wire.py:33-41` | The frame goes out in writes of at most 32 KiB, or nothing at all if the payload is over the limit |
| `Wire.WriteFrame` | `rust/mdp2p-node/src/codec.rs:58-65` | The frame goes out unless the length does not fit in 32 bits |
| `Wire.HeaderRoundTrip` | `wire.py:39` | The header is the length in four bytes, most significant first, and reads back |
| `Wire.ReceiveFramed` | `wire.py:44-56` | Receiving is a function of the bytes on the stream, not of how they are cut |
| `Wire.FramingRoundTrip` | `rust/mdp2p-node/src/codec.rs:43-65` | Within the limit the receiver gets exactly the payload and leaves what follows; over the limit only the header is read |
| `Wire.FramesStayApart` | `wire.py:33-56` | Messages sent back to back come out one by one, none lost or joined |
| `Wire.BrokenFrameIsNoFrame` | `wire.py:44-56` | A connection that breaks inside a frame never yields a message |
| `Messages.MessageRoundTrip` | `wire.py:33-56` | A float-free message sent by Python is read back as the same value, leaving what follows, exactly when its text is within the limit |
| `Spelling.SpaceIsSkipped` | `wire.py:56` | Between the parts of a text blanks, tabs, line feeds and carriage returns may stand, and nothing else |
| `Spelling.OtherEscapes` | `wire.py:56` | Hex digits may be capitals, and a slash may be escaped |
| `Spelling.PrintsAtMostSixfold` | `wire.py:44-56` | Whatever payload is read, with white space, unescaped characters, members in any order or more than once: the canonical text of what it says takes at most six times its bytes |
| `Spelling.RespeltSpells` | `wire.py:56` | An object is read the same with its members in any order and the first one spelt in another way, in front of any suffix that cannot continue a number |
| `Answers.RawSubmissionIsRead` | `wire.py:44-56` | A request with one long text left as it is in UTF-8 is read as the canonical one, and is exactly as much shorter as escaping that text costs |
| `Answers.OneFits` | `naming.py:381` | One record that came in a request of at most 64 KiB, in whatever form, fits in an answer of its own |
| `Answers.TwoFit` | `naming.py:408-411` | So do two together |
| `Seeders.TrySeeders` | `rust/mdp2p-node/src/fetch.rs:117-166` | For every completion order: as many downloads in flight as there are providers, up to four; no provider tried twice; a winner is an accepted response, and there is none exactly when no provider is good |
| `Seeders.JudgeProvider` | `rust/mdp2p-node/src/fetch.rs:139-159` | A finished download yields a winner exactly when it is a response that the check accepts when it arrives |
| `Seeders.RunSound` | `peer/bundle_protocol.py:74-103` | Along every interleaving of the tasks: at most one winner and a valid one, cancellation exactly with a winner, at most four downloads |
| `Seeders.NurseryResult` | `peer/bundle_protocol.py:74-103` | When all tasks are over there is exactly one winner, a valid one, if any seeder is valid, and none otherwise |
| `Seeders.FirstValidWins` | `peer/bundle_protocol.py:74-103` | The winner is the first seeder judged and found valid |
| `Seeders.WinnerStays` | `peer/bundle_protocol.py:74-103` | And it stays the winner, however many valid responses come in after it |
| `Seeders.NurseryProgress` | `peer/bundle_protocol.py:74-103` | Until all tasks are over some task can go on |
| `Seeders.NurseryEnds` | `peer/bundle_protocol.py:74-103` | Every interleaving ends after at most two steps per seeder |
| `Fetching.FetchSite` | `rust/mdp2p-node/src/fetch.rs:57-184` | The whole fetch: each outcome exactly under its condition; what is won is stored only if a directory can hold it, and then always if the disk does not fail; nothing is stored before a bundle is accepted and nothing pinned before it is stored; on success the site on disk is the accepted one and the pins take exactly the step that the pin theorems are about |
| `Fetching.JudgedByCause` | `rust/mdp2p-node/src/fetch.rs:57-110` | Each problem with the record has its own cause: no answer, an error, a record that does not vouch, a pin with another key, a mark above its date; without any the fetch follows it |
| `Fetching.PinnedKeyRules` | `rust/mdp2p-node/src/fetch.rs:57-184` | Once a name is pinned, the pinned key has signed both the record and the manifest of anything a fetch accepts, the manifest matches the record, the files match the manifest, and the record is no older than the mark |
| `Fetching.EveryVisitorSeeds` | `rust/mdp2p-node/src/codec.rs:71-128` | A node that stored what it fetched is a good provider for anybody else's fetch exactly as long as its text of the site is at most 100 MiB and the manifest has not expired, for any pair of printer and reader that agree on this message |
| `Fetching.DeliveredWhole` | `rust/mdp2p-node/src/codec.rs:43-82` | An answer reaches the asker whole exactly when its text is within 100 MiB, and otherwise the request fails |
| `Publishing.CreateManifest` | `bundle/manifest.py:48-102` | The loops over the found files build the manifest, unless there are more than 1000 files or 50 MB |
| `Publishing.PublishableInTerms` | `bundle/manifest.py:54-75` | Publishing refuses exactly more than 1000 files or 52,428,800 bytes |
| `Publishing.ManifestSays` | `bundle/manifest.py:77-102` | The manifest field by field, and of every file its path, hash and size |
| `Publishing.BytesAddUp` | `bundle/manifest.py:54-75` | The total size is the sum of the sizes, however the files are divided |
| `Publishing.AuthorServes` | `bundle/serialization.py:37-52` | A published directory serves its manifest and files if every path is valid and every file is UTF-8, and otherwise never serves anything |
| `Publishing.ServableIffSound` | `bundle/manifest.py:54-62` | Of the paths the search finds, the ones publishing should have refused are exactly those with a backslash or more than ten levels |
| `Publishing.PublishedIsAccepted` | `bundle/manifest.py:32-102` | What an author's directory serves is accepted against the author's own reference until it expires and delivers the author's files byte for byte |
| `Publishing.RecordResolves` | `bundle/name_records.py:69-95` | The author's registration, as the naming server answers it, is accepted by every client and says what the author put in |
| `Publishing.AuthorIsNamed` | `rust/mdp2p-node/src/fetch.rs:57-110` | The author a client notes beside the pin is the one the record names |
| `Publishing.PublishedIsFetched` | `peer/peer.py:140-213` | From publication to fetch: once the naming server has accepted the author's registration and none newer, a client whose pin, if any, fits follows the server's answer, and the author's node, printing, framing and all, is a good provider exactly when the files can be served, the text of the site is at most 100 MiB, and the manifest has not expired |
| `Clashes.PublishedIsStored` | `rust/mdp2p-node/src/store.rs:99-146` | What an author publishes, once accepted, can be stored exactly when no file is inside another or inside the manifest or signature file |
| `Publishing.BackslashIsPublished` | `bundle/manifest.py:54-75` | A site with a backslash in a name is published and never served |
| `Publishing.AccentedSiteIsPublished` | `peer/bundle_protocol.py:168-171` | A site of 20 million accented letters is published with sound files, and its text is over the limit on messages, so nobody can fetch it |

## Left out

- Printer.WriteValue: says nothing about what a failed call leaves in the buffer, because the caller drops it.
- Disk.Volume.WriteFile: a name too long for the file system, of a path segment or of a staging directory, counts as
  a fault of the disk, as its limit is no part of the programs.
- Storage.SiteStore.WriteSite: directories are read without failing and paths are exact strings; symbolic links,
  case-insensitive file systems and empty directories are not modelled, and writes reach the disk in the order they
  are made, which neither program forces by syncing.
- Storage.SiteStore.Rescan: which directory wins when two claim one name is left open, as the order of reading is.
- Seeding.SeedingPreservesAcceptance: serde_json's pretty printer and parser, and trimming, are parameters; the
  parser has to read back this manifest and a signature has to verify without blanks around it.
- BundlePython.RustIsPythonOnWellTyped: file paths are compared lexically, without the symbolic links Python
  resolves, and a Python `str` with lone surrogates is not modelled.
- NamingServer.Server.HandlePostAssignment: records arrive typed; the tests that a field is present and of its JSON
  type, and `int()` on other values, are not modelled. The same goes for the other handlers.
- Reading.TwoReviewsAreHeard: requests and stored records hold exactly the fields of their type; a field of no
  meaning to the server would be signed, stored and served along with the rest.
- Inboxes.FewAssignmentsEndInbox: about the inbox at the end of the run, not after further assignments.
- Paging.ListAll: one server run; a restart loads the stores from sorted JSON and may reorder them.
- Pins.FetchesKeepOneKey: fetches of one name follow each other; two at once may both pass the check before
  either pins. Reading and writing the pin file does not fail, an entry is an object, and its mark is an integer
  or absent.
- Scoring.ScoreContent: scores are reals, not floating point, and the power of one half is a parameter with values
  in (0, 1].
- Codec.PutVarint: bit operations are written as arithmetic on numbers below 2^64.
- Fetching.FetchSite: the Rust client; Python's runs the same steps after looking up the providers first.
- Records.FarTimestampsWrap: 64-bit arithmetic of a release build; a debug build stops on overflow instead.
- Messages.MessageRoundTrip: messages that hold a float are not covered, as their text is Python's own. What is read
  holds no float, no integer beyond 64 bits and no lone surrogate; Python reads these too.
- Fetching.EveryVisitorSeeds: serde_json's compact printer and its reader are parameters that agree on the message.
- Publishing.PublishedIsFetched: the messages to and from the naming server are not framed; an accepted registration
  came in a request within the limit, in whatever form, so the answer fits (`Listings.ResolvedFits`).
- Publishing.CreateManifest: directory search, category checks and JSON of the author's own library are inputs; key
  files, announcing and asking for reviews are not modelled.
- Real Ed25519, SHA-256 and base64: foreign libraries.
- libp2p hosts, the DHT, relays, the event loop and peer lifecycle: plumbing around foreign calls.
- The varint-prefixed frame of DHT messages (`rust/mdp2p-node/src/codec.rs:234-251`): the same shape as the framing in `Wire`.
- Persistence of the naming server's stores (`_load`, `_save`): taken as identity within a run.
- The reviewer daemon, the review taxonomy, trust counters, federation proofs and the caching of attachments: they
  would only add easy members.
- Command line, text interface, configuration, service installer, demos: user interface and input or output only.
