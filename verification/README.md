# Verification of the ORAS package proxy

A Dafny model of the proxy, its autoindex publisher and editor, and the fixture tools beside it, with
proofs of what they are for. Every file under this directory belongs to the project;
`dafny verify dfyconfig.toml` checks all of it.

The model is split along the repository's own lines.

- **The autoindex cycle.** `Paths`, `Autoindex`, `Listing` and `Pages` are the path rules, the
  prefix-free index, the synthesized directories and their HTML. `Manifests` and `Projection` are the
  reader and what it takes from mixed manifests, `FileTrees`, `TitledTrees`, `Publisher`,
  `Conservation`, `Cycle`, `FileSums` and `SelectionOrder` the publisher over an abstract file tree,
  `Image` and `Characterization` the proof that the editable manifests are exactly the published ones.
  `Editor`, `EditorProperties`, `EditLimits` and `Repository` are the create, update and delete
  commands, as functions and as the imperative program, the proof that they refine a map from paths to
  bytes, and the artifacts they can no longer edit. `PathSpelling`, `ReaderEffects`, `PublisherEffects`
  and `EditorEffects` say what each of these does in terms of paths, bytes and numbers alone.
- **Blob streams.** `Streams`: the stateful verifier against the one-shot check.
- **Credentials.** `Challenges` is the cursor parser, `ChallengeText` the language it accepts,
  `BearerDiscovery` the choice among header values, `OrdinaryChallenges` the value registries send,
  `TokenCaches` the cache, `Brokers` and `BrokerSafety` the interleaved requests that share it, and
  `BrokerRounds` the course of one request.
- **Names and admission.** `Locators`, `Routes`, `Admission` and `Numerals`.
- **Uploads and forwarding.** `Uploads`, `Forwarding` and `UploadLoop` are the session loop,
  `UpstreamRequests` which requests reach the registry.
- **The fixture registry.** `Registries` is its locked sections, `RegistrySystem` the interleaving of
  its handler threads, `RegistryEffects` what its clients get.
- **Binary codecs.** `Zstd`, `Archives`, `ArchiveProperties`, `RpmHeaders` and `RpmReading`, over
  `Ascii` and `Integers`.
- `Wrappers`, `Text`, `Orders` and `Digests` are shared.

Code that updates state step by step is modelled by methods and classes, each proved against a function
of the old state; the results are lemmas about those functions. Concurrency is modelled by steps: one
for each await in a brokered request, one for each locked section or unlocked read of the fixture
registry.

## What is assumed

SHA-256 is a parameter, any function to well-formed digests that sends `{}` to its published digest.
Where distinct contents must have distinct digests, the lemma says so for the finitely many contents
that occur. JSON syntax is not modelled: manifests are structured values that keep the annotation and
extension counts the reader looks at, the length of a manifest's encoding is a parameter, and the
fixture registry takes a parser as a parameter. Replies, grants, clocks, faults and fresh upload ids are
chosen by the environment without restriction. Header values are sequences of the characters of their
bytes, and repository strings are ASCII as the code requires.

## Where the code and its documentation differ

The model follows the code.

- docs/architecture/0002-autoindex-visibility-and-path-projection.md has a visible layer without a
  title ignored; the reader refuses the manifest (crates/github-oras-packages-proxy/src/oci.rs:993-995,
  `Projection.UnlistableLayerRefused`; `Projection.ParsesIff` says exactly which manifests it takes).
- The first usable challenge is documented to be returned, but one header value that is not readable
  text ends the search (crates/github-oras-packages-proxy/src/auth.rs:103, `BearerDiscovery.ChooseIff`),
  and one with an empty list element after a Bearer parameter is unusable
  (`ChallengeText.EmptyElementUnusable`), although section 5.6.1 of RFC 9110 has recipients ignore it.
  Section 5.6.4 allows a tab in a quoted string; the parser refuses it (`ChallengeText.TabUnusable`).
- The publisher compares its running total with the limit before it knows whether the content is
  repeated (crates/github-oras-packages-proxy/src/publisher.rs:181-195), so the order of the files can
  decide whether they fit (`SelectionOrder.OrderDecidesPublication`); `SelectionOrder.EveryOrderDraftsIff`
  says for which files it cannot.
- A published artifact can be too large to be edited again: by its total with repetitions counted
  (`EditLimits.RepeatedContentUneditable`), or by the length of its manifest
  (`EditLimits.ManifestOutgrowsReader`).
- A well-formed directory that does not exist is answered with an empty page and status 200
  (`Pages.EmptyPageIffAbsent`).
- Rewriting passes upload ids of any length, while the path parser takes at most 512 characters
  (`UploadLoop.UploadLocationFollowed`).
- The zstd reader takes frames that section 3.1.1.2 of RFC 8878 does not, without a last block, with
  blocks over 128 KiB or with a header cut off (`Zstd.FrameAcceptedIff`, `Zstd.SpelledWellFormedIff`).
- The member writer's first check lets a 16-character name through to an assertion that fails
  (`ArchiveProperties.WriteSucceedsIff`).

## Model

| member | source | states |
|---|---|---|
| Autoindex.Index.Insert | crates/github-oras-packages-proxy/src/autoindex.rs:180-197 | Inserting in place keeps the index free of conflicts, adds exactly the new object, and fails exactly on a repeated path or on a file that would be an ancestor or descendant of another, leaving the index as it was |
| Autoindex.BuildSucceedsIff | crates/github-oras-packages-proxy/src/autoindex.rs:180-197 | Inserting a sequence of objects succeeds if and only if no two of them repeat a path or stand in the way of each other |
| Autoindex.BuildIgnoresOrder | crates/github-oras-packages-proxy/src/autoindex.rs:180-197 | Two orders of the same objects both build equal indexes or both fail |
| Listing.Children | crates/github-oras-packages-proxy/src/autoindex.rs:220-252 | The loop that fills the entry map lists exactly one entry per child name, in name order, and the error cases for other spellings |
| Listing.ChildrenAreNamed | crates/github-oras-packages-proxy/src/autoindex.rs:230-251 | Every child name of a directory is listed once and never as both a file and a directory |
| Listing.ListedEntries | crates/github-oras-packages-proxy/src/autoindex.rs:205-252 | A listed file is the indexed object directly below; a listed directory is a valid path within the byte and segment limits, exists, and has the listing directory as its parent |
| Listing.CrawlVisitsEachObjectOnce | crates/github-oras-packages-proxy/src/autoindex.rs:220-257 | Crawling from the root terminates and visits every indexed object exactly once and nothing else |
| Pages.EscapeHtml | crates/github-oras-packages-proxy/src/autoindex.rs:309-322 | The appending loop escapes character by character |
| Pages.RenderDirectoryHtml | crates/github-oras-packages-proxy/src/autoindex.rs:261-298 | The appending loop produces the page of exactly the given entries, and fails exactly for spellings that are no directory |
| Pages.UnescapedEscaped | crates/github-oras-packages-proxy/src/autoindex.rs:309-322 | Unescaping undoes escaping |
| Pages.PageLinks | crates/github-oras-packages-proxy/src/autoindex.rs:261-298 | The unescaped link targets of a page are the parent (unless at the root) and then each entry's path, in order |
| Pages.LinksResolve | crates/github-oras-packages-proxy/src/proxy.rs:414-484 | Every link on the page of an existing directory leads to an object of the index or to the listing of an existing directory |
| Pages.ParentExists | crates/github-oras-packages-proxy/src/autoindex.rs:300-307 | The parent of an existing directory exists |
| Pages.RedirectResolves | crates/github-oras-packages-proxy/src/proxy.rs:437-447 | A redirect leads to a directory that exists and is listed |
| Pages.ResolveTells | crates/github-oras-packages-proxy/src/proxy.rs:414-484 | Every well-formed path is answered by its object's bytes, by a listing if it has a trailing slash, by a redirect exactly if objects lie below it, and otherwise as missing |
| Pages.BadRequestIff | crates/github-oras-packages-proxy/src/proxy.rs:414-425 | A target is a bad request exactly when it is no slash with a valid path after it |
| Pages.LastNameTells | crates/github-oras-packages-proxy/src/autoindex.rs:300-307 | The parent of a directory ends where its last name begins, and the captions are the last names, with a slash after directories |
| Pages.PageTells | crates/github-oras-packages-proxy/src/autoindex.rs:261-298 | The page names its directory in the title and the heading, around the parent link and the entries |
| Orders.OrdersTell | crates/github-oras-packages-proxy/src/autoindex.rs:220-257 | Names are ordered by code points and paths by components, prefixes first |
| PathSpelling.ValidRelativeIff | crates/github-oras-packages-proxy/src/autoindex.rs:76-103 | A path is valid exactly when it joins at most 128 names of unescaped characters, none empty, `.` or `..`, with at most one slash at the end, within 4,096 bytes |
| Pages.EmptyPageIffAbsent | crates/github-oras-packages-proxy/src/proxy.rs:448-484 | A well-formed directory is always answered with its listing, never as missing, and the listing is empty exactly when the directory does not exist or the index has no object |
| Projection.ParseAutoindexManifest | crates/github-oras-packages-proxy/src/oci.rs:969-1019 | The layer loop accepts a manifest exactly when its envelope is the expected one and all its visible layers are valid, titled with valid paths and free of conflicts; the index then holds exactly the objects of the visible layers, and compatibility with file-level editing is decided as the original does |
| Projection.ParsesIff | crates/github-oras-packages-proxy/src/oci.rs:988-1019 | Which manifests, with visible and hidden layers mixed, are indexed, and that the index holds exactly the objects of the visible ones |
| Projection.HiddenLayersIgnored | crates/github-oras-packages-proxy/src/oci.rs:989-992 | Manifests that differ in hidden layers only are indexed alike or refused alike |
| Projection.LayerOrderIgnored | crates/github-oras-packages-proxy/src/oci.rs:988-1010 | Manifests whose visible layers differ in order only have the same index |
| Projection.UnlistableLayerRefused | crates/github-oras-packages-proxy/src/oci.rs:993-1010 | One visible layer without a title, with an unusable title or with an invalid descriptor makes the whole manifest unusable |
| ReaderEffects.EnvelopeErrors | crates/github-oras-packages-proxy/src/oci.rs:969-971 | The schema version and media type are refused as an invalid layout, and then the config as an invalid descriptor, before any layer |
| ReaderEffects.FirstBadLayer | crates/github-oras-packages-proxy/src/oci.rs:988-1010 | The first visible layer that cannot be listed decides the error: its missing title, its descriptor, its path, or its conflict with an earlier one |
| ReaderEffects.DescriptorTells | crates/github-oras-packages-proxy/src/oci.rs:1062-1090 | A descriptor is valid exactly with a lower-case SHA-256 digest, at most 64 MiB and a printable media type of at most 256 characters without blanks at its ends |
| ReaderEffects.MediaTypeTells | crates/github-oras-packages-proxy/src/publisher.rs:494-517 | The media type is told by the extension, whatever comes before it and in any case, and is plain bytes without one |
| FileTrees.WriteSucceedsIff | crates/github-oras-packages-proxy/src/autoindex_cli.rs:235-238 | A file can be written into a tidy tree exactly when no file is an ancestor of its path and no directory stands at it |
| FileTrees.WriteReads | crates/github-oras-packages-proxy/src/autoindex_cli.rs:235-238 | A written file reads back and no other file changes |
| FileTrees.RemoveReads | crates/github-oras-packages-proxy/src/autoindex_cli.rs:147-152 | Removing a file removes that file only |
| FileTrees.WalkMeetsFiles | crates/github-oras-packages-proxy/src/publisher.rs:407-443 | The walk meets exactly the files of the tree |
| FileTrees.WalkIncreases | crates/github-oras-packages-proxy/src/publisher.rs:142-143 | The walk is already in the order of path components, each file once |
| TitledTrees.TitlesConflictFree | crates/github-oras-packages-proxy/src/publisher.rs:445-463 | Titles of files of one tree never stand in each other's way |
| TitledTrees.StagedWrite | crates/github-oras-packages-proxy/src/autoindex_cli.rs:231-239 | Staging a titled file adds exactly that title to the staged files and succeeds exactly when no staged title conflicts with it |
| Publisher.CollectFiles | crates/github-oras-packages-proxy/src/publisher.rs:407-443 | The recursive collector pushes the walk of the tree, succeeds exactly for trees without unsupported entries within the depth and count limits, and otherwise reports the first obstacle in walk order |
| Publisher.FromFiles | crates/github-oras-packages-proxy/src/publisher.rs:152-260 | The publishing loop over the selected paths computes the publication determined by the files, or the first error in their order |
| Publisher.FromDirectory | crates/github-oras-packages-proxy/src/publisher.rs:138-145 | Publishing a directory is publishing its walk, and fails with the first obstacle of the walk or else the first failure among its files |
| PublisherEffects.SourceTells | crates/github-oras-packages-proxy/src/publisher.rs:465-492 | A selected path is read exactly when a regular file stands at it and no special entry on the way; special entries and directories are unsupported and what is not there is an I/O error |
| PublisherEffects.FirstFailure | crates/github-oras-packages-proxy/src/publisher.rs:164-192 | The first file that cannot be added decides the error, by the first check it fails |
| PublisherEffects.NothingToPublish | crates/github-oras-packages-proxy/src/publisher.rs:152-213 | A root that is no directory and a selection without files are refused as such |
| PublisherEffects.DirectoryTells | crates/github-oras-packages-proxy/src/publisher.rs:138-145 | A directory is published as the files of its walk, and refused before that only for not being one, for a special entry in it, for its depth or for more than 10,000 files |
| PublisherEffects.PublicationOrdered | crates/github-oras-packages-proxy/src/publisher.rs:214-252 | Layers are listed by title, each title once, and blobs by digest: the config and each stored content, and nothing else |
| Conservation.StoredContents | crates/github-oras-packages-proxy/src/publisher.rs:180-203 | The running total is the sum of sizes over distinct contents, within 64 MiB, and the stored blobs are exactly those contents |
| FileSums.TotalOfDistinct | crates/github-oras-packages-proxy/src/publisher.rs:193-195 | Counting each content once gives at most the total over all files, and the total exactly when no non-empty content occurs twice |
| EditorProperties.TotalsAgreeIff | crates/github-oras-packages-proxy/src/autoindex_cli.rs:211-217 | What the publisher counts for a tree equals what staging its publication counts exactly when no non-empty content occurs twice, and is less otherwise |
| Conservation.PublicationResolves | crates/github-oras-packages-proxy/src/publisher.rs:204-260 | Every layer and the config resolve to a listed blob of equal digest and length, every listed blob has the digest of its bytes and is referred to, and the paths are the layer titles |
| Cycle.DraftSucceedsIff | crates/github-oras-packages-proxy/src/publisher.rs:164-213 | The publishing loop over any selection of paths succeeds exactly for at most 10,000 readable files with distinct valid titles that fit the byte limit in turn |
| Cycle.TreePublishes | crates/github-oras-packages-proxy/src/publisher.rs:138-260 | A regular tree is published as a manifest if and only if its files are publishable, and the manifest depends only on the files |
| FileSums.WithinTotalFits | crates/github-oras-packages-proxy/src/publisher.rs:180-195 | Files whose lengths sum to at most 64 MiB, repetitions counted, fit in component order |
| SelectionOrder.EveryOrderFitsIff | crates/github-oras-packages-proxy/src/publisher.rs:180-203 | Without collisions, contents fit in every order exactly when the distinct ones are within 64 MiB with room to count any repeated one once more |
| SelectionOrder.EveryOrderDraftsIff | crates/github-oras-packages-proxy/src/publisher.rs:152-213 | A selection goes through the publishing loop in every order exactly when its files are readable, at most 10,000, under distinct valid titles, and leave that room |
| SelectionOrder.OrderDecidesPublication | crates/github-oras-packages-proxy/src/publisher.rs:180-195 | The limit is checked before repeated content is recognised: one selection of three files of one tree is published, and another order of it exceeds the limit |
| SelectionOrder.OrderKeepsPublication | crates/github-oras-packages-proxy/src/publisher.rs:214-260 | Two orders of one selection that are both published have the same publication: manifest, blobs and paths |
| FileSums.RepeatedContentFits | crates/github-oras-packages-proxy/src/publisher.rs:193-203 | The same 30 MiB three times pass the publisher's checks although their total exceeds the limit; `EditLimits.RepeatedContentUneditable` draws the consequence |
| Image.PublishedParses | crates/github-oras-packages-proxy/src/oci.rs:969-1019 | The manifest of publishable files parses, is compatible with editing, and indexes exactly those files |
| Characterization.PublishedIsReadable | crates/github-oras-packages-proxy/src/oci.rs:969-1019 | Whatever the publisher makes of a tree, the reader parses, admits to editing and indexes as exactly the files of the tree |
| Characterization.ReadableIsPublished | crates/github-oras-packages-proxy/src/publisher.rs:138-260 | An editable manifest whose layers are stored within the limits is the publication of a tree of exactly the stored files |
| Characterization.EditableIffPublished | crates/github-oras-packages-proxy/src/oci.rs:972-987 | The manifests that admit file-level editing, with files stored within the limits, are exactly the manifests the publisher produces |
| Characterization.PublishableIsPublished | crates/github-oras-packages-proxy/src/publisher.rs:138-260 | Publishable files without conflicting titles are the files of some tree whose publication has their manifest |
| EditorProperties.MaterializedIsStored | crates/github-oras-packages-proxy/src/autoindex_cli.rs:205-241 | Staging a loaded snapshot yields exactly the files the registry stores under it, or fails |
| EditorProperties.StepEditsOrLeaves | crates/github-oras-packages-proxy/src/autoindex_cli.rs:71-188 | Under any fault, an error or a dry run leaves the reference and the stored files as they were, and success leaves exactly the edited files, with no manifest exactly when no file is left |
| EditorProperties.StepSimulates | crates/github-oras-packages-proxy/src/autoindex_cli.rs:71-188 | Without faults a command answers what is decided on the map of files alone and leaves a registry that stores exactly the files decided |
| EditorProperties.RunSimulates | crates/github-oras-packages-proxy/src/autoindex_cli.rs:71-188 | Over every sequence of commands without faults the registry answers and evolves as the map of files does |
| EditorProperties.AttemptsEditExactly | crates/github-oras-packages-proxy/src/autoindex_cli.rs:71-188 | From any honest registry and under any faults in between, the stored files end up edited by exactly the commands answered with success that were no previews, in order, and the reference is their manifest, none, or untouched accordingly |
| EditorEffects.CommandEffect | crates/github-oras-packages-proxy/src/autoindex_cli.rs:100-188 | From any honest registry and under any faults a deletion that succeeds removes the file, or everything below the directory, and nothing else; a creation adds a file that was not there and an update replaces one that was, with the bytes of the source; the answer is the number of paths affected |
| EditorEffects.AnswersTell | crates/github-oras-packages-proxy/src/autoindex_cli.rs:71-188 | Without faults every answer has exactly one reason, in the order of the checks: the path, the source, the size of the manifest, what is there already, the total, a file in the way, and what can be published |
| EditorEffects.FaultsRefuse | crates/github-oras-packages-proxy/src/autoindex_cli.rs:71-203 | A refused or broken load, missing temporary storage or a failing upload makes the command fail and leaves the reference; a preview needs the manifest alone and changes nothing |
| EditorEffects.MissingRefuses | crates/github-oras-packages-proxy/src/autoindex_cli.rs:205-241 | As long as one stored file cannot be fetched with the size and digest its manifest declares, no command but a preview succeeds and nothing changes |
| EditLimits.OversizedManifestIsStuck | crates/github-oras-packages-proxy/src/oci.rs:434-455 | Every command fails, and changes nothing, exactly when the manifest has outgrown the reader's limit, which the publisher does not check |
| EditLimits.ManifestOutgrowsReader | crates/github-oras-packages-proxy/src/oci.rs:434-455 | Under every encoding that spells the titles out, 4,300 empty files in directories, all names of 250 characters, are published and then refuse every command |
| EditLimits.EditPossibleIff | crates/github-oras-packages-proxy/src/autoindex_cli.rs:211-217 | Some edit of an artifact can succeed if and only if its manifest is within the reader's limit, its files, repetitions counted, are within the byte limit, and at most 10,000 files are there or left by some deletion |
| EditLimits.RepeatedContentUneditable | crates/github-oras-packages-proxy/src/autoindex_cli.rs:211-217 | Three files of the same 30 MiB are published, and no edit of them can succeed |
| Repository.Materialize | crates/github-oras-packages-proxy/src/autoindex_cli.rs:205-241 | The staging loop builds a tree of exactly the fetched files in index order, stopping at the first object that cannot be fetched or exceeds the total |
| Repository.RemoveAll | crates/github-oras-packages-proxy/src/autoindex_cli.rs:147-152 | The deleting loop removes exactly the matching files |
| Repository.Edit | crates/github-oras-packages-proxy/src/autoindex_cli.rs:140-153 | Editing the staged tree edits the map of its files, and fails exactly when a file is in the way |
| Repository.PublishEdited | crates/github-oras-packages-proxy/src/autoindex_cli.rs:155-180 | What is pushed for a staged tree is the manifest and blobs its files determine |
| Repository.Repository.Execute | crates/github-oras-packages-proxy/src/autoindex_cli.rs:71-188 | The whole command, branch by branch, answers and leaves the registry as the step function says |
| Streams.Verifier.Scan | crates/github-oras-packages-proxy/src/oci.rs:818-842 | One frame or transport error changes the verifier's state and is passed on as the scan function says |
| Streams.VerifiedBody | crates/github-oras-packages-proxy/src/oci.rs:809-861 | The scan of all items followed by the final check delivers the body the functions determine |
| Streams.StreamAgreesWithOneShot | crates/github-oras-packages-proxy/src/oci.rs:1092-1104 | For every chunking: what is delivered is a prefix no longer than declared, nothing follows an error, and the stream ends cleanly exactly when nothing broke and the one-shot check accepts all the bytes, but for the one declared size at which the counter saturates |
| Streams.ChunkingIrrelevant | crates/github-oras-packages-proxy/src/oci.rs:809-861 | The verdict does not depend on how the bytes were cut into frames |
| Streams.DeliveriesTell | crates/github-oras-packages-proxy/src/oci.rs:809-861 | Item by item: frames are delivered as they are until the first error or excess byte and as bad descriptors from then on, transport errors as such, and one more error ends the body exactly when it did not end cleanly |
| Challenges.BearerParametersOf | crates/github-oras-packages-proxy/src/auth.rs:146-195 | The cursor loops terminate and read the parameters the suffix functions determine |
| Challenges.ParseQuotedStringAt | crates/github-oras-packages-proxy/src/auth.rs:249-272 | The accumulating loop reads one quoted string with its escapes and leaves the cursor after it, or refuses it |
| Challenges.SkipChallengeAt | crates/github-oras-packages-proxy/src/auth.rs:197-216 | The two-flag scan stops after the next comma outside quotes |
| Challenges.ParseParametersAt | crates/github-oras-packages-proxy/src/auth.rs:157-192 | The parameter loop with its lookahead and backtracking reads the whole list or refuses it |
| ChallengeText.CollectIff | crates/github-oras-packages-proxy/src/auth.rs:172-177 | Collecting parameters fails exactly when two names agree in lower case, and otherwise holds every parameter and no other |
| ChallengeText.ChallengeParses | crates/github-oras-packages-proxy/src/auth.rs:146-195 | Every spelling of a Bearer challenge, behind other challenges with no scheme or parameter named bearer, parses to its unescaped parameters under lower-cased names |
| ChallengeText.ParsedIsSpelled | crates/github-oras-packages-proxy/src/auth.rs:146-195 | Every value that parses is spelled by some challenge with exactly the parameters returned |
| ChallengeText.BearerParametersIff | crates/github-oras-packages-proxy/src/auth.rs:140-195 | A header value is usable if and only if it spells a Bearer challenge without a repeated name, and all its spellings have the parameters returned |
| ChallengeText.RepeatedNameUnusable | crates/github-oras-packages-proxy/src/auth.rs:172-177 | A repeated name makes the value unusable |
| ChallengeText.EmptyElementUnusable | crates/github-oras-packages-proxy/src/auth.rs:179-190 | A trailing comma or empty list element after a Bearer parameter makes the value unusable |
| ChallengeText.ControlUnusable | crates/github-oras-packages-proxy/src/auth.rs:257-268 | A control character in the first quoted value, plain or escaped, makes the whole value unusable |
| ChallengeText.TabUnusable | crates/github-oras-packages-proxy/src/auth.rs:257-268 | A quoted tab, which section 5.6.4 of RFC 9110 allows, makes the value unusable |
| BearerDiscovery.FindChallenge | crates/github-oras-packages-proxy/src/auth.rs:98-130 | The loop over header values finds the challenge the choice function determines |
| BearerDiscovery.ChooseIff | crates/github-oras-packages-proxy/src/auth.rs:98-130 | The challenge chosen is that of the first value offering one, with every value up to it readable; an unreadable value ends the search |
| BearerDiscovery.RealmKeepsAuthority | crates/github-oras-packages-proxy/src/auth.rs:114-123 | The authority of a trusted realm is the origin's, and the rest is a plain path |
| OrdinaryChallenges.OrdinaryParses | crates/github-oras-packages-proxy/src/auth.rs:140-195 | A Bearer scheme in any case with a quoted realm and service parses to exactly these two |
| OrdinaryChallenges.OrdinaryChosenIff | crates/github-oras-packages-proxy/src/auth.rs:98-130 | Such a value is chosen exactly when it is ASCII text within 8 KiB whose realm continues the origin with a plain path and whose service is a plain name of at most 256 characters, whatever values follow |
| OrdinaryChallenges.TokenTells | crates/github-oras-packages-proxy/src/auth.rs:235-247 | Schemes, names and bare values are the tokens of section 5.6.2 of RFC 9110 |
| TokenCaches.TokenCache.Get | crates/github-oras-packages-proxy/src/auth.rs:287-292 | An answer comes from what is left after the expired entries are dropped |
| TokenCaches.TokenCache.Insert | crates/github-oras-packages-proxy/src/auth.rs:300-323 | Insertion evicts the least key only for a new key in a full cache, and a lifetime below the skew leaves everything, an older entry included |
| TokenCaches.CacheBounded | crates/github-oras-packages-proxy/src/auth.rs:313-315 | Over every run the cache holds at most 16 tokens |
| TokenCaches.AnswersAreFresh | crates/github-oras-packages-proxy/src/auth.rs:285-328 | An answered token was inserted for that repository, nothing has settled the repository since, and the question comes before insertion time plus the granted lifetime, at most 15 minutes, less 30 seconds |
| TokenCaches.BoundedAnswersAsUnbounded | crates/github-oras-packages-proxy/src/auth.rs:285-328 | With a monotone clock and at most 16 repositories the cache answers exactly as one that never evicts |
| TokenCaches.RoomIsMade | crates/github-oras-packages-proxy/src/auth.rs:300-323 | A kept insertion drops nothing unless the cache holds 16 other repositories, and then the one with the least name alone |
| Brokers.TracedKept | crates/github-oras-packages-proxy/src/oci.rs:570-625 | Every step of every request keeps what has been sent and exchanged in agreement with the request's phase |
| BrokerSafety.Reachable | crates/github-oras-packages-proxy/src/oci.rs:570-625 | Every interleaving of requests keeps the invariant on traces, cached tokens and tokens on the wire |
| BrokerSafety.CachedTokensEarned | crates/github-oras-packages-proxy/src/oci.rs:608-625 | Every cached token was issued for its repository and then accepted with status 200, both by one request |
| BrokerSafety.TokensNeverCross | crates/github-oras-packages-proxy/src/oci.rs:589-592 | No brokered request carries a token that was not issued earlier for its own repository |
| BrokerSafety.RequestsBounded | crates/github-oras-packages-proxy/src/oci.rs:582-625 | A request makes at most two resource sends and one exchange, the exchange only after status 401 and only under the origin, and is served exactly when its last send was answered with 200 |
| BrokerSafety.CacheIsARun | crates/github-oras-packages-proxy/src/oci.rs:589-623 | The shared cache of an interleaving is the cache of its operations in order, and stays within 16 entries |
| BrokerSafety.SharedAnswersAreFresh | crates/github-oras-packages-proxy/src/oci.rs:589 | Under every interleaving a token the cache hands out was inserted for that repository, nothing has settled the repository since, and its reduced lifetime is not over |
| BrokerSafety.DirectRequestsInvisible | crates/github-oras-packages-proxy/src/oci.rs:581-587 | Taking the requests with their own authorization out of any interleaving changes neither the cache nor anything another request does or sees |
| BrokerRounds.BrokeredCourse | crates/github-oras-packages-proxy/src/oci.rs:570-625 | What a brokered request sends, exchanges and ends with, decided by what happens at its six awaits: an unexpired cached token is sent, a 401 with a usable challenge leads to one exchange, a token that can be sent to one more send, and the last reply is the outcome |
| BrokerRounds.DirectCourse | crates/github-oras-packages-proxy/src/oci.rs:570-588 | A request with its caller's authorization, or of a proxy without credentials, is sent once with that and ends with the reply, past the cache |
| BrokerRounds.CacheAfterCourse | crates/github-oras-packages-proxy/src/oci.rs:589-623 | An accepted new token is cached to the end of its reduced lifetime, a refused one is gone, and a token that was not refused stays |
| BrokerRounds.RequestsEnd | crates/github-oras-packages-proxy/src/oci.rs:570-625 | Whatever other requests do and whatever comes back, a request is done after at most six steps of its own |
| Locators.IsRepositorySegment | crates/github-oras-packages-proxy/src/routing.rs:324-349 | The loop accepts exactly lower-case letters and digits with single separators strictly between them |
| Locators.ParseRepository | crates/github-oras-packages-proxy/src/routing.rs:27-45 | A repository is admitted exactly when its length, segment count and segments are |
| Locators.DecodeEncode | crates/github-oras-packages-proxy/src/routing.rs:281-289 | Decoding undoes encoding, whether or not the decoder minds unused low bits |
| Locators.EncodeDecode | crates/github-oras-packages-proxy/src/routing.rs:281-291 | Encoding undoes a strict decoding |
| Locators.EncodeTells | crates/github-oras-packages-proxy/src/routing.rs:53-55 | Every digit of a locator (`Locators.DigitTells`) stands for its six of the repository's bits, by the table of section 5 of RFC 4648 |
| Locators.LenientAliases | crates/github-oras-packages-proxy/src/routing.rs:287-291 | What a lenient decoder takes is the encoding of what it reads exactly when a strict decoder takes it: the re-encoding refuses the aliases and nothing else |
| Locators.DecodeLocator | crates/github-oras-packages-proxy/src/routing.rs:273-294 | With either decoder a locator is accepted exactly when it is the locator of an admitted repository, and yields that repository |
| Locators.LocatorBounded | crates/github-oras-packages-proxy/src/routing.rs:53-55 | Every admitted repository has a locator of at most 340 characters |
| Locators.LocatorInjective | crates/github-oras-packages-proxy/src/routing.rs:53-55 | Two repositories never share a locator |
| Routes.ParseRawTarget | crates/github-oras-packages-proxy/src/routing.rs:229-271 | A target is accepted exactly when it spells a valid route to an enabled protocol under GET or HEAD, and yields that route; every refusal names the method, the shape or the first unusable part |
| Routes.SpellingsUnique | crates/github-oras-packages-proxy/src/routing.rs:229-271 | A target spells at most one route, and different accepted targets yield different routes |
| Routes.RouteTells | crates/github-oras-packages-proxy/src/routing.rs:229-271 | A route is spelled as the fixed prefix, the locator, the protocol's name and the path |
| Routes.ProtocolPathTells | crates/github-oras-packages-proxy/src/routing.rs:296-322 | The path of a route joins at most 128 names of ASCII characters without controls and semicolons, none empty or a dot name, within 4,096 bytes |
| Admission.ParseContentLength | crates/github-oras-packages-proxy/src/inbound.rs:374-386 | The checked fold accepts exactly the decimal numerals below 2^64 and computes their value |
| Admission.ValidateContentLength | crates/github-oras-packages-proxy/src/inbound.rs:354-372 | Repeated declarations are accepted exactly when all are numerals of one value, zero where no body is allowed |
| Admission.ValidateHeaders | crates/github-oras-packages-proxy/src/inbound.rs:311-352 | For every limit a machine word holds, the checked sum refuses exactly the header sections that are too large, and the other checks exactly the fields that are not admitted; every error has its reason in the fields |
| Admission.HeadBytesTell | crates/github-oras-packages-proxy/src/inbound.rs:311-330 | The bytes counted are those of the header section as it is sent |
| Numerals.LengthsSpelled | crates/github-oras-packages-proxy/src/inbound.rs:374-386 | Every number below 2^64 can be declared in decimal, with or without leading zeros, and is read as itself; larger ones are refused |
| Uploads.ValidUploadQuery | crates/github-oras-packages-proxy/src/oci.rs:745-770 | The flag loop accepts exactly the queries of `_state` and `digest` parts, each at most once and at least one |
| Uploads.ValidClientQuery | crates/github-oras-packages-proxy/src/proxy.rs:304-320 | The same for client queries, whose digests may percent-encode the colon |
| Uploads.ValidMountQuery | crates/github-oras-packages-proxy/src/proxy.rs:285-303 | A mount query is accepted exactly when it has a digest to mount and names this repository, once each and nothing else |
| Forwarding.ParsePathIff | crates/github-oras-packages-proxy/src/oci_gateway.rs:47-132 | The path parser accepts exactly the paths of valid targets of this repository, with the slash after uploads optional, and each path names one target |
| UploadLoop.RewriteLocation | crates/github-oras-packages-proxy/src/oci.rs:654-697 | A location is passed on exactly when it has the origin's scheme and, ignoring case, its authority, or has neither, and names an upload session or blob of this repository, and then as its own path and query |
| UploadLoop.SameAuthorityTells | crates/github-oras-packages-proxy/src/oci.rs:654-697 | Authorities are compared character by character, letters in either case |
| UploadLoop.ValidDistributionQuery | crates/github-oras-packages-proxy/src/proxy.rs:268-323 | Dispatch of the query checks by target and method |
| UploadLoop.UpstreamUrl | crates/github-oras-packages-proxy/src/oci.rs:503-518 | The URL requested for a client's request, or none |
| UploadLoop.PassedOnUnchanged | crates/github-oras-packages-proxy/src/oci.rs:503-518 | Every request that is passed on goes to the origin at exactly the client's own path and query, but for the slash that may be missing after uploads, and stays below the repository |
| UploadLoop.QueriesAgree | crates/github-oras-packages-proxy/src/proxy.rs:304-336 | The rewriting lets through exactly the client queries whose digest does not percent-encode its colon: that spelling is all the two upload validators differ in |
| UploadLoop.UploadLocationFollowed | crates/github-oras-packages-proxy/src/oci_gateway.rs:73-81 | Following a rewritten upload location makes the proxy request exactly the URL the location named if and only if the id has at most 512 characters; longer ids are refused |
| UploadLoop.BlobLocationFollowed | crates/github-oras-packages-proxy/src/oci.rs:687-691 | Following the location of a finished blob reaches exactly the URL it named |
| UploadLoop.AppendedQuery | crates/github-oras-packages-proxy/src/proxy.rs:309-319 | A digest can be appended to an accepted query exactly when it has none |
| UploadLoop.UploadFinished | crates/github-oras-packages-proxy/src/proxy.rs:195-209 | The finishing PUT with the digest appended reaches the URL of the location with that digest, exactly when the id is not too long and the location carried no digest |
| UpstreamRequests.ManifestRequests | crates/github-oras-packages-proxy/src/proxy.rs:155-174 | A manifest request is passed on to its own URL exactly for GET, HEAD, PUT and DELETE without a query |
| UpstreamRequests.BlobRequests | crates/github-oras-packages-proxy/src/proxy.rs:103-184 | A blob request is passed on to its own URL exactly for GET, HEAD and DELETE without a query |
| UpstreamRequests.StartRequests | crates/github-oras-packages-proxy/src/proxy.rs:185-194 | An upload is started exactly by POST, with or without the final slash, plainly or with a mount query, at the URL with the slash |
| UpstreamRequests.SessionRequests | crates/github-oras-packages-proxy/src/proxy.rs:195-211 | A session request is passed on to its own URL exactly for PATCH, PUT and DELETE, with no query or an upload query |
| UpstreamRequests.NothingElse | crates/github-oras-packages-proxy/src/proxy.rs:39-212 | Every request that is passed on has a path of one of these four forms below the configured repository |
| UpstreamRequests.MountQueryIff | crates/github-oras-packages-proxy/src/proxy.rs:285-303 | A mount query is exactly a digest to mount and this repository to take it from, in either order |
| UpstreamRequests.ClientQueryIff | crates/github-oras-packages-proxy/src/proxy.rs:277-321 | An upload query is exactly a non-empty state, a digest or both in either order, without control characters or fragment marks |
| UpstreamRequests.NamesTell | crates/github-oras-packages-proxy/src/oci_gateway.rs:102-136 | References, digests and upload ids are exactly names of up to 256, 71 and 512 characters from their alphabets, and a digest is a reference |
| Registries.RegistryState.StartUpload | scripts/oci_registry_stateful.py:215-219 | Starting an upload opens an empty session under its state and touches nothing else |
| Registries.RegistryState.Upload | scripts/oci_registry_stateful.py:240-297 | The locked upload section answers and leaves the dictionaries as the functions of the old state say, in every branch |
| Registries.RegistryState.Finish | scripts/oci_registry_stateful.py:266-292 | A finishing request stores the extended upload under its digest and closes the session, or on a wrong digest keeps the extension and the session |
| Registries.RegistryState.CheckAll | scripts/oci_registry_stateful.py:119-132 | The descriptor loop succeeds exactly when every descriptor has a stored blob of its size and digest |
| Registries.RegistryState.Commit | scripts/oci_registry_stateful.py:136-141 | The locked commit restores every checked blob and names the body by reference and digest |
| Registries.RegistryState.RemoveContent | scripts/oci_registry_stateful.py:151-154 | Deletion removes every name of the manifest and no other |
| RegistrySystem.FinishStoresSession | scripts/oci_registry_stateful.py:266-281 | A finished upload stores exactly the concatenation of what its session appended, refused finishing bodies included, within 64 MiB and under its own digest |
| RegistrySystem.StepKeeps | scripts/oci_registry_stateful.py:110-297 | Each interleaved step keeps the invariant |
| RegistrySystem.Reachable | scripts/oci_registry_stateful.py:110-297 | In every reachable state each blob key is the digest of its bytes, every blob is what some finished upload appended, and every session holds what it appended |
| RegistrySystem.CommitResolves | scripts/oci_registry_stateful.py:119-141 | Immediately after a manifest commits, whatever was deleted or uploaded between its checks, all its descriptors resolve with the declared size |
| RegistrySystem.DigestsNameTheirManifests | scripts/oci_registry_stateful.py:136-154 | While every digest-shaped reference is the digest of its body, digests name exactly their manifests and every manifest is also named by its digest |
| RegistrySystem.DigestReferenceUnchecked | scripts/oci_registry_stateful.py:136-141 | Any other digest-shaped reference breaks that, since nothing compares it |
| RegistrySystem.ForeignDigestReached | scripts/oci_registry_stateful.py:136-141 | From the empty registry an upload and one manifest PUT make any foreign digest name the manifest |
| RegistryEffects.UploadCourse | scripts/oci_registry_stateful.py:209-293 | From any state a client that starts a session and sends a blob in any pieces within 64 MiB has exactly that blob stored and its session closed, and everything else is as before |
| RegistryEffects.UploadRefused | scripts/oci_registry_stateful.py:233-299 | Every status of an upload request with its reason, in the order of the checks, and what it changes: nothing, but for a finishing request with a wrong digest, whose body stays |
| RegistryEffects.PutCourse | scripts/oci_registry_stateful.py:110-147 | A manifest that nothing interrupts is committed under its reference and its digest exactly when the reference is a plain name and every descriptor is stored with its size and digest; no blob's bytes change either way |
| RegistryEffects.DeletionTells | scripts/oci_registry_stateful.py:151-154 | Deleting a manifest removes exactly the names of its content, whatever was put in between, and touches nothing else |
| RegistryEffects.DeletionCourse | scripts/oci_registry_stateful.py:145-154 | A deletion that nothing interrupts removes every name of what the reference names, and an unknown reference changes nothing |
| RegistryEffects.SmallSteps | scripts/oci_registry_stateful.py:183-220 | A blob is deleted under its digest alone and a new session is empty; neither touches anything else |
| Zstd.ZstdRaw | fixtures/generate.py:125-144 | The block loop writes the frame of the data and fails exactly for data of 2^32 bytes or more |
| Zstd.ZstdRawPayload | fixtures/verify.py:47-67 | The offset loop reads what the block-by-block function reads, with the same refusals |
| Zstd.FrameReadsBack | fixtures/verify.py:47-67 | Reading a written frame gives the data back, for every size that can be written |
| Zstd.HeaderFits | fixtures/generate.py:141-142 | A block header fits its three bytes |
| Zstd.BlocksWellFormed | fixtures/generate.py:138-144 | Blocks are raw, all but the final one hold exactly 128 KiB and that one no more, and exactly the final one carries the last bit, as in section 3.1.1.2 of RFC 8878 |
| Zstd.BlocksReadIff | fixtures/verify.py:51-67 | The blocks the reader accepts are exactly raw blocks of less than 2 MiB of which only the last may be marked, or unmarked ones followed by fewer than three zero bytes, and they are read as their contents |
| Zstd.FrameAcceptedIff | fixtures/verify.py:47-67 | The reader accepts exactly the frames with the expected prefix, the length of the contents in it, and such blocks |
| Zstd.SpelledWellFormedIff | fixtures/verify.py:51-67 | Of the blocks the reader accepts exactly those whose last is marked and of which none exceeds 128 KiB are well-formed |
| Zstd.UnfinishedFrameAccepted | fixtures/verify.py:54-67 | So a frame is accepted whose only block is not marked, whether or not a cut header of zeros follows |
| Archives.ArMembers | fixtures/verify.py:30-44 | The offset loop reads what the member-by-member function reads, with the same refusals, sizes spelled with signs or underscores included |
| ArchiveProperties.WriteSucceedsIff | fixtures/generate.py:147-160 | A member can be written exactly when its name has at most 15 plain ASCII characters, its length at most ten decimal digits and its mode at most eight octal ones |
| ArchiveProperties.ArchiveReadsBack | fixtures/verify.py:30-44 | Reading an archive of written members sets exactly those members in order, the later of two with one name winning |
| ArchiveProperties.DistinctMembersReadBack | fixtures/verify.py:30-44 | With distinct names the archive reads back as exactly the members written, in order |
| ArchiveProperties.HeadersAligned | fixtures/generate.py:150-160 | Every member's header starts at an even offset, where the reader finds that member |
| RpmHeaders.RpmHeader | fixtures/generate.py:191-235 | The layout loop computes the header of the entries and fails exactly for kinds and values that cannot be encoded or packed |
| RpmHeaders.ValuePlaced | fixtures/generate.py:198-232 | Each value stands inside the data section at its recorded offset, which is aligned for its kind, and its index entry records its tag, kind and count |
| RpmHeaders.ValuesDisjoint | fixtures/generate.py:198-232 | No two values overlap |
| Integers.BytesTell | fixtures/generate.py:206-235 | Fixed-width integers are written byte by byte by weight, in either order |
| RpmReading.ValueReadsBack | fixtures/generate.py:203-229 | Each value can be read back at its recorded offset, except exactly texts with a NUL in them |
| RpmReading.HeaderReadsBack | fixtures/generate.py:233-235 | A written header reads back as its index and data section |

## Left out

- Sockets, TLS, timeouts, server lifecycle, configuration and command-line parsing, and the mapping of errors to responses: foreign runtime or finite tables.
- The retired route-map snapshot and its package request handler: a plain map lookup.
- The real filesystem: symbolic links and other special files are one kind of unsupported entry, file names are ASCII or not titles, permissions and temporary directories are not modelled.
- Publisher.FromFiles: the manifest's own digest and encoded bytes are not part of the publication, because JSON is not modelled; the OCI layout on disk is left out for the same reason.
- EditorProperties.AttemptsEditExactly: commands follow one another; concurrent commands can overwrite each other's reference, because nothing in the original compares it before writing.
- EditorProperties.StepEditsOrLeaves: the reference is set or deleted in one step by the external ORAS tool, whose failure may leave some blobs behind.
- Streams.VerifiedBody: one consumer reads the stream; the lock around the verifier is not modelled.
- TokenCaches.TokenCache.Get: instants are whole nanoseconds given by the caller.
- Brokers.TracedKept: a request abandoned by its client simply takes no further step; JSON of the token service is reduced to the grant it carries.
- UploadLoop.RewriteLocation: starts from the parsed URI, so the spellings the HTTP library refuses or rewrites (fragments and the case of the scheme among them) are not modelled; that its equality of authorities ignores ASCII case is known of that library, whose source is not part of this model.
- UploadLoop.UploadLocationFollowed: the request-target length limit, 8 KiB by default and independent of the location, is left to the admission checks.
- Locators.DecodeLocator: bytes that are not UTF-8 and bytes that are not ASCII get the same error kind, because text is ASCII in the model.
- Registries.RegistryState.CheckAll: the type errors of malformed JSON values are one malformed descriptor, and the observation log is left out.
- RpmHeaders.RpmHeader: values come in the shape of their kind, because the conversions of arbitrary Python objects are not modelled; the lead and signature are constants.
- The cpio writer (no reader, and its magic is not that of the newc format), tar, zip and gzip fixtures, and the remaining scripts.
