# Verified model of Velociportal

Velociportal shows each Tailscale or Headscale identity the services and machines that the access policy lets it
reach. This project models the parts of it whose correctness is not obvious from reading one function, and proves
what they promise, in Dafny 4.11:

- **the shared metadata editor**: a compare-and-swap commit over one file, as a step system with failing system
  calls, polls between any two steps, power loss and process death at any point, and a startup that reconciles the
  disk one call at a time (`EditorProtocol`, `EditorSafety`, `EditorLimits`), and as the objects the program has,
  tied to runs of that system (`MetadataEditor`, `EditorService`, `VisibleHost`); what it takes to pass its checks is
  told from the side that issues tokens (`EditorEntitlement`);
- **the service-health cycle**: dispatcher, workers, closer and collector over two unbuffered channels
  (`HealthCycle`), and the store and poller around them (`ServiceHealth`);
- **hostname suggestions**: connected components by an alternating two-queue search (`HostnameGraph`,
  `HostnameSuggestions`), subdomains label by label (`HostnameLabels`), and the way from names and proxy hosts to the
  proposed document (`HostnameCandidates`, `HostnameEligibility`, `HostnameProposal`, `HostnameOffers`);
- **the environment file codec**, byte by byte, with Go's quoting (`EnvFile`, `GoQuote`, `Utf8`), and the grammar it
  comes to, form by form (`EnvGrammar`);
- **service metadata documents**: strict parser, deterministic printer, duplicate-key walk (RFC 8259) and edit
  algebra (`Json`, `ServiceMetadata`, `MetadataEdit`);
- **policy matching**: identities, selectors, first-match evidence, and the identity-independent checks that must
  cover it (`Policy`, `ServiceMatcher`, `OverApproximation`), who sees what told over the policy and the nodes alone
  (`Reach`), SSH machines (`MachineMatcher`, `Machines`), card order and sections (`ServiceCards`);
- **probe targets**: prefix arithmetic on octets (RFC 4632, RFC 4291) and the all-or-nothing address filter
  (`AddressPrefix`, `ProbeTarget`);
- **Tailscale owners**: a validation that makes every later lookup unambiguous (`TailscaleOwners`).

`Common`, `Ordering` and `Selection` hold what they share. Go's map iteration is `Ordering.RangeOver`, an order of
which nothing else is known; Go's unstable sort is `Ordering.SortSlice`, some sorted permutation. `dafny verify
dfyconfig.toml` checks everything.

## Where the code does less than one might expect

Each of these is stated with the exact condition under which the property holds:

- An identity set is tested while it grows over an unordered map. All orders give the same set if and only if no
  other group lists one of the groups a login belongs to (`Policy.IdentitySetIsOrderFree`).
- `doctor` strips a selector's port before a matcher that strips it again. That is harmless for a selector if and
  only if the second pass changes nothing or leaves the wildcard (`OverApproximation.DoctorSelectorIsExact`). With
  the selector `db:1:2` everybody sees the host `db:1` and doctor does not join it
  (`OverApproximation.SeenButNotJoined`).
- A host alias may stand for `autogroup:self`, and what it grants is then covered by neither the structural match
  nor the identity-dependent flag (`OverApproximation.CoverageIsExact`; `OverApproximation.AliasIsUncovered` gives
  a policy with such an alias).
- A written environment file is refused by its own parser if and only if a line exceeds 1 MiB (`EnvFile.RoundTrip`).
- The check period of an SSH access depends on the order of the rules if and only if competing rules disagree on it
  (`MachineMatcher.PeriodIsOrderFree`).
- A hostname may have 253 characters, but a service name only 120. The proposal for the suggested hostnames is
  refused if and only if some service would get a longer name or the text exceeds 256 KiB
  (`HostnameProposal.ProposalSucceedsExactly`; `HostnameProposal.LongNameIsRefused` gives a hostname).
- A process that ignores the editor's lock may write at any point of a save that would go through. The save takes
  no notice and answers "saved" if and only if its second look at the file is behind it, and the stranger's bytes
  are lost if and only if moreover the rename is still to come (`EditorLimits.StrangersWriteIsLost`).
- A poll may revoke access at any point of a save that would go through. The save still goes through, just as it
  would have, if and only if the final check is behind it (`EditorLimits.LateRevocationIsIgnored`). The source says
  that it promises neither.

## Model

| member | source | states |
|---|---|---|
| EditorSafety.CrashRecovers | service_metadata_editor.go:51-381 | After any run, a power loss or the death of the process at any point, startup included, leaves a whole valid document, the confirmed one or the one whose rename had happened; a startup then comes up on exactly that file, and its syncs make it the only one that can come back |
| EditorSafety.StartupWorks | service_metadata_editor.go:51-127 | From any disk whose file reads and parses, synced or not, the calls of startup lead to an enabled editor whose view is that file, synced and with no other entry left to come back |
| EditorSafety.FirstStartup | service_metadata_editor.go:51-127 | Whatever attempts fail before, the first startup that gets through turns an installed file, nothing of it synced, into the durable start of a history |
| EditorSafety.RestingViewIsFile | service_metadata_editor.go:299-381 | Between the operations of an enabled editor, file bytes, view bytes, parsed metadata and revision agree, and nothing older can come back after a power loss |
| EditorSafety.FailedSaveChangesNothing | service_metadata_editor.go:299-381 | In every run, with polls in between, a save that fails with anything but "uncertain" leaves file, view, switch and history as they were |
| EditorSafety.WhatChanges | service_metadata_editor.go:299-381 | Of all steps in a process, only a successful rename touches the file and only a successful directory sync touches the view; a failed one disables |
| EditorSafety.DisabledIsSticky | service_metadata_editor.go:299-381 | Once disabled, no later step of the process changes file, view or history, and every save is answered "uncertain" |
| EditorSafety.CommitsFormAChain | service_metadata_editor.go:299-381 | Over all saves of all clients, across crashes, the commits form one chain: each replaced exactly the bytes whose revision its client presented by the printed edit of the document in them |
| EditorSafety.ConfirmedCommitsStay | service_metadata_editor.go:299-381 | A commit once confirmed is never lost from the history, whatever runs, failures and crashes follow |
| EditorSafety.SavedIsLogged | service_metadata_editor.go:299-381 | A save answered "saved" is the settled last commit, from the old view's bytes to the new view's |
| EditorSafety.RenamesAreAuthorized | service_metadata_editor_http.go:223-252 | Every rename, even with strangers writing, directly follows a final check that the same request passed; only polls and strangers act in between |
| EditorEntitlement.ForbiddenExactly | service_metadata_editor_http.go:315-334 | The final check answers "forbidden" exactly for a token that was not issued to this login under this key at most 1800 s ago by its whole second, or was issued later than now |
| EditorEntitlement.VisibilityMeaning | service_metadata_editor_http.go:198-221 | A request is let through exactly on fresh data in which its login sees one host with the id and no other, the one its target names; and it is told apart when data are stale and when there is no such host |
| EditorEntitlement.CommitsHaveTokens | service_metadata_editor_http.go:223-252 | In every run, strangers and crashes included, each logged commit was asked for with a token issued to its own login under the key of its own process |
| EditorEntitlement.RenamesAreEntitled | service_metadata_editor_http.go:223-252 | Every rename comes right after a moment at which its login held such a fresh token and saw exactly the one service it meant; only polls and strangers act in between |
| EditorSafety.RequestsSeeLastCommit | service_metadata_editor.go:242-249 | A request reads the metadata of the last confirmed commit, whatever an in-flight poll publishes, and everything else from the cache |
| EditorSafety.CacheIsOneLoad | cache.go:107-191 | Policy, nodes, roles, hosts and time of the published snapshot come from one poll that ran through; failed refreshes never show |
| EditorSafety.CacheHoldsTheView | cache.go:107-191 | The published metadata is what the editor showed when the load behind it began |
| EditorSafety.InvariantKept | service_metadata_editor.go:51-381 | Each step of the editor, the polls, startup, a power loss or the end of the process keeps the joint invariant of disk, view, stage, startup and history |
| EditorService.CommitIsTheEdit | service_metadata_editor.go:251-381 | A committed file parses to exactly the edited, id-sorted v3 form of the document in the file it replaced |
| EditorLimits.StrangersWriteIsLost | service_metadata_editor.go:299-381 | At every point of a save that would go through: a stranger's write goes unnoticed exactly from the second look at the file on, is lost exactly if it comes before the rename too, and otherwise ends the save with a conflict |
| EditorLimits.LateRevocationIsIgnored | service_metadata_editor.go:299-381 | At every point of a save that would go through: a poll that hides the service leaves its outcome as it was exactly once the final check is passed, and before that ends it with nothing changed |
| MetadataEditor.SaveOutcome | service_metadata_editor_http.go:223-252 | A save succeeds exactly when every check holds and every call works, and then file and view are the printed edit; "uncertain" disables; any other failure changes nothing |
| MetadataEditor.SaveReply | service_metadata_editor_http.go:223-252 | The reply to a save is the first thing that goes wrong, in the order of the checks and calls |
| MetadataEditor.SaveKeepsSound | service_metadata_editor_http.go:223-252 | Every outcome of a save leaves view, revision and, unless disabled, file in agreement |
| MetadataEditor.SaveIsARun | service_metadata_editor_http.go:223-252 | What a save does to disk, view, switch and reply is what a run of the step protocol does, with any polls before the final check, so all results about runs apply to it |
| MetadataEditor.StartupOutcome | service_metadata_editor.go:51-127 | Startup succeeds exactly when every call works and both reads parse, then on the file it found under the lock, synced and with no other entry left; a failed one leaves the file as the last writer did |
| MetadataEditor.StartupIsARun | service_metadata_editor.go:51-127 | What startup does to the disk, and the view it comes up with, is what a run of the step protocol does |
| MetadataEditor.CheckFindsStrangers | service_metadata_editor.go:199-211 | An enabled editor's look at its own file finds nothing; after a stranger's write it reports a conflict exactly for other bytes within the bound; an unreadable file is an error of the storage |
| EditorService.ServiceMetadataEditor.NewServiceMetadataEditor | service_metadata_editor.go:51-127 | The disk, and the editor if any, that the startup specification gives for every combination of failures, a writer before the lock and a missing key included |
| EditorService.ServiceMetadataEditor.StartLocked | service_metadata_editor.go:51-127 | The same for the half of it that runs under the lock |
| EditorService.ServiceMetadataEditor.RequestSnapshot | service_metadata_editor.go:242-249 | The cache's snapshot with only its metadata replaced by the view's |
| EditorService.ServiceMetadataEditor.VisibleHost | service_metadata_editor_http.go:198-221 | The request's own data decides: stale data, no or several visible services with the id, or another target are refused |
| EditorService.ServiceMetadataEditor.FinalCheck | service_metadata_editor_http.go:223-252 | Refuses an expired or foreign token before it asks for visibility again, with a clock reading for each |
| EditorService.ServiceMetadataEditor.WriteTemporary | service_metadata_editor.go:299-381 | Leaves the temporary file as far as the calls got, under a name not in use, and the original alone |
| EditorService.ServiceMetadataEditor.Replace | service_metadata_editor.go:299-381 | Recheck, final check, rename, directory sync and publication, with the state after each failure |
| EditorService.ServiceMetadataEditor.Commit | service_metadata_editor.go:299-381 | The state and reply that the commit specification gives for every combination of checks and failures |
| EditorService.ServiceMetadataEditor.Save | service_metadata_editor_http.go:223-252 | The state and reply that the save specification gives, with the cache loaded anew for the final check, and a sound editor afterwards |
| EditorService.ServiceMetadataEditor.Close | service_metadata_editor.go:213-233 | A closed editor is disabled, with file and view untouched |
| EditorService.Cache.Refresh | cache.go:107-124 | The pointer moves exactly when every load succeeds, to the snapshot made of them; otherwise it stays |
| VisibleHost.CheckVisible | service_metadata_editor_http.go:198-221 | The error, if any, that the set of visible hosts with the id calls for |
| VisibleHost.ShownHosts | service_metadata_editor_http.go:198-221 | Looking through the sorted matches for one with the id finds what the unsorted visible hosts hold |
| HealthCycle.CycleIsSafe | service_health.go:143-255 | In every run: no send on or second close of a closed channel, always a next step that does not wait for the timeout, and a length bounded by the number of jobs |
| HealthCycle.NoDeadlock | service_health.go:143-255 | Until all goroutines have ended some named step is possible, as long as probes return |
| HealthCycle.StepDecreases | service_health.go:143-255 | Each step, the expiry included, lowers the measure that bounds runs |
| HealthCycle.InvariantKept | service_health.go:143-255 | Every step keeps the joint invariant of dispatcher, workers, closer and collector |
| HealthCycle.ProbesAreBounded | service_health.go:143-255 | No job is probed twice, and at most min(workers, jobs) probes run at once |
| HealthCycle.PublishedIsHonest | service_health.go:143-255 | Exactly the configured ids are published, and every entry other than unprobed is what this cycle's probe of that id returned |
| HealthCycle.PublishedIsComplete | service_health.go:143-255 | If the context never expires, the result of every eligible job is published |
| ServiceHealth.StalenessOnlyGrows | service_health.go:27-47 | Reads change an observation only by turning it stale, for good, and never an unknown one |
| ServiceHealth.StaleExactly | service_health.go:27-47 | A known observation reads as stale exactly once it is older than the positive bound, and otherwise as it is |
| ServiceHealth.LastHostCounts | service_health.go:143-255 | Of several hosts with an id the last one is probed |
| ServiceHealth.EligibleExactly | service_health.go:143-255 | A service is probed exactly when the last host with its id is supported |
| ServiceHealth.ServiceHealthStore.Get | service_health.go:27-47 | Reads what the published snapshot says at that time |
| ServiceHealth.CollectJobs | service_health.go:143-255 | The configured services with a supported host, in order |
| ServiceHealth.RunPool | service_health.go:143-255 | Under any schedule the goroutines reach publication, along a run of the step system |
| ServiceHealth.ServiceHealthPoller.RunCycle | service_health.go:143-255 | A failed load keeps the old observations, a disabled check publishes none, and otherwise exactly the configured ids are published, from a run of the pool if there are jobs and a prober |
| HostnameGraph.ConnectedIsEquivalence | hostname_suggestions.go:208-328 | Being joined by matches is symmetric and transitive |
| HostnameLabels.SubdomainEndsWithDot | hostname_suggestions.go:204-206 | A hostname ends with a dot and the suffix, and is not the suffix, exactly when its labels end with all labels of the suffix and are more |
| HostnameGraph.JoinsBelow | hostname_suggestions.go:204-206 | A name and a host are joined exactly when the name is, label by label, below one of the suffixes of the host |
| HostnameGraph.InExactlyOneGroup | hostname_suggestions.go:208-328 | Every hostname and id with a match is in exactly one group |
| HostnameGraph.GroupingIsUnique | hostname_suggestions.go:208-328 | The groups and their order follow from the matches alone |
| HostnameGraph.PairIsOnlyNeighbours | hostname_suggestions.go:208-328 | A group is a single pair exactly when each of the two is the other's only match |
| HostnameSuggestions.Drain | hostname_suggestions.go:208-328 | Emptying one queue visits everything in it, misses no neighbour of a visited vertex, and makes progress lexicographically |
| HostnameSuggestions.Explore | hostname_suggestions.go:208-328 | The two-queue search ends and finds exactly what is connected to its start |
| HostnameSuggestions.BuildGraph | hostname_suggestions.go:208-328 | Both edge maps hold exactly the suffix matches, or there are more than 16384 of them |
| HostnameSuggestions.CollectGroups | hostname_suggestions.go:208-328 | The loop over sorted hostnames reports each connected component once |
| HostnameSuggestions.BuildHostnameSuggestions | hostname_suggestions.go:208-328 | The error exactly beyond the edge bound, and otherwise pairs and larger components in hostname order |
| HostnameSuggestions.SuggestedExactly | hostname_suggestions.go:208-328 | A hostname is suggested for an id exactly when each is the other's only match, a match being a host with a suffix that the labels of the hostname end with; and with its own source |
| HostnameSuggestions.AmbiguousExactly | hostname_suggestions.go:208-328 | The ambiguities are exactly the components that are not a single pair, each whole |
| HostnameSuggestions.OutcomeIsOrderFree | hostname_suggestions.go:208-328 | Permuting candidates and hosts, and any map iteration order, leaves the result and the error unchanged |
| HostnameCandidates.MergeHostnameSuggestionCandidates | hostname_suggestions.go:71-118 | One sorted candidate per valid name with the sources that offered it, or the first bound passed or record refused |
| HostnameCandidates.MergeIsUnique | hostname_suggestions.go:71-118 | The merge, its error included, is determined by its inputs |
| HostnameCandidates.MergedHostnamesAreUnique | hostname_suggestions.go:71-118 | At most 1024 candidates, each hostname once |
| HostnameEligibility.NormalFormIsStable | hostname_suggestions.go:50-69 | Normalizing a hostname twice changes nothing more, and the result is fit for a document but for its length |
| HostnameEligibility.NormalFormExactly | hostname_suggestions.go:50-69 | A text is accepted for a hostname exactly when trimmed, in small letters and without one final dot it is two or more labels of letters, digits and inner hyphens, within the length bounds, and no address |
| HostnameEligibility.WildcardExactly | hostname_suggestions.go:120-126 | The suffix of a wildcard is the hostname behind its only asterisk, which is a label of its own |
| HostnameEligibility.ScanDomains | hostname_suggestions.go:147-170 | The distinct wildcard suffixes of one host and whether it has a concrete domain, or the total that passed its bound |
| HostnameEligibility.EligibleHostnameSuggestionHosts | hostname_suggestions.go:128-202 | An error exactly when a bound is passed or a positive id repeats, the first one met host by host and domain by domain, and otherwise exactly the eligible hosts by id |
| HostnameEligibility.EligibleIsUnique | hostname_suggestions.go:128-202 | The outcome, the error included, is determined by the hosts in their order |
| HostnameEligibility.EligibleIsOrderFree | hostname_suggestions.go:128-202 | Whether there is a list, and the list, do not depend on the order of hosts or map iteration |
| HostnameProposal.BuildHostnameSuggestionProposal | hostname_suggestions.go:330-374 | The printed entries in hostname order, or the first thing wrong |
| HostnameProposal.V1SucceedsExactly | service_metadata.go:114-133 | Printing version 1 succeeds exactly for valid entries with distinct ids within both bounds, and reads back as given |
| HostnameProposal.SuggestionsAreDistinct | hostname_suggestions.go:208-328 | No hostname and no id is suggested twice |
| HostnameProposal.ProposalSucceedsExactly | hostname_suggestions.go:71-374 | From names and hosts to the document: it is made exactly when all names have at most 120 characters and the text at most 256 KiB, and reads back as one entry per suggestion |
| HostnameProposal.LongNameIsRefused | hostname_suggestions.go:330-374 | A hostname of 123 characters is accepted as a candidate, and its proposal is refused |
| HostnameProposal.PipelineIsOrderFree | hostname_suggestions.go:71-328 | Permuting names and proxy hosts changes neither candidates nor eligible hosts nor suggestions |
| HostnameOffers.OffersExactly | hostname_suggestions.go:71-328 | Over names, hosts and metadata: a hostname is suggested for a host exactly when no other host takes it and this host takes no other, a host taking a mentioned name if it is reachable, has neither an address nor a URL of its own, and has a wildcard above the name; the source says which lists mention it |
| HostnameOffers.ProposedEntries | hostname_suggestions.go:330-374 | The printed proposal reads back as version 1 with, in hostname order, each suggestion under the known name or the hostname, and with its URL |
| HostnameOffers.CandidateBounds | hostname_suggestions.go:71-118 | Refused for their number are exactly more than 4096 control-plane names and, if all typed names are valid, more than 1024 distinct ones |
| HostnameOffers.EligibleBounds | hostname_suggestions.go:128-202 | Refused are exactly more than 1024 hosts, 4096 domains or 2048 suffixes, and a positive id that occurs twice |
| HostnameOffers.SuggestionBound | hostname_suggestions.go:208-328 | Refused are exactly more than 16384 matches |
| EnvFile.ParseEnvFile | envfile.go:32-106 | The map, or the line and reason of the first error, that the line grammar gives for any bytes |
| EnvFile.ParseLine | envfile.go:32-106 | The map with one more entry, or the reason why the line is refused |
| EnvFile.ParseEnvValue | envfile.go:108-140 | The value, or the error, of a quoted, single-quoted or bare value |
| EnvFile.FindDoubleQuoteEnd | envfile.go:142-155 | The position of the first unescaped double quote, if there is one |
| EnvFile.ParseUnquotedEnvValue | envfile.go:165-180 | The trimmed text before the first comment mark that starts the value or follows a blank |
| EnvGrammar.AssignmentReads | envfile.go:32-106 | A line of blanks, optional keyword, key, blanks, sign and any text sets the key to what that text reads as, unless the key is there already or the value holds a forbidden byte |
| EnvGrammar.ExportIsOptional | envfile.go:32-96 | `export KEY=value` reads as `KEY=value`, for any key and any bytes behind the sign |
| EnvGrammar.SingleQuotedReads | envfile.go:108-140 | A single-quoted value is the bytes between the quotes; behind it blanks or a comment may stand, and nothing else; without a second quote it is refused |
| EnvGrammar.TextAfterIsNotClean | envfile.go:157-163 | Blanks and then anything but a comment spoil a quoted value |
| EnvGrammar.DoubleQuotedReads | envfile.go:108-155 | A value quoted as Go does reads as itself, with blanks or a comment behind it and nothing else |
| EnvGrammar.BareReads | envfile.go:165-180 | A bare value ends before blanks and a comment mark; a mark that follows no blank belongs to it |
| EnvGrammar.NoValueReads | envfile.go:108-180 | Nothing, or only a comment, behind the sign is the empty value |
| EnvGrammar.SilentLines | envfile.go:32-106 | Blank lines and comments leave the map as it is |
| EnvGrammar.RefusedLines | envfile.go:32-106 | A line is too long exactly beyond 1048576 bytes, and otherwise refused for a forbidden byte exactly when it holds a carriage return, a line feed or a zero byte |
| EnvGrammar.LinesRead | envfile.go:32-106 | Lines end with a line feed, or a carriage return and a line feed, and are read one by one; the first refused one ends it with its number |
| EnvGrammar.LastLineReads | envfile.go:32-106 | The last line needs no line feed |
| EnvGrammar.KeysAreNames | envfile.go:334-349 | Keys are names of letters, digits and underscores that do not start with a digit |
| EnvFile.SerializeEnvFile | envfile.go:182-203 | Sorted quoted lines exactly when all keys and values are valid, whatever the map order |
| EnvFile.RoundTrip | envfile.go:32-203 | parse(serialize(m)) = m exactly when every line is within 1 MiB; otherwise the parser refuses the long line |
| EnvFile.CanonicalFixedPoint | envfile.go:32-203 | Whatever is accepted can be written, and within the line bound writing is lossless and canonical |
| EnvFile.ParsedIsSerializable | envfile.go:32-203 | Accepted text yields valid keys and values only |
| EnvFile.KeepsExport | envfile.go:32-96 | A written key named export, or starting so, is not taken for the keyword |
| GoQuote.QuoteRoundTrip | envfile.go:108-203 | strconv.Unquote undoes strconv.Quote on every byte string, ill-formed UTF-8 included |
| GoQuote.QuoteEndsAtEnd | envfile.go:142-155 | The only unescaped quote of a quoted body is the closing one, and no byte in it is a control |
| GoQuote.OctalReads | envfile.go:108-140 | An escape of three octal digits is that byte, up to 377, and otherwise refused |
| GoQuote.RunesRead | envfile.go:108-140 | Of four or eight hexadecimal digits exactly those of a rune are read, surrogates refused |
| GoQuote.OneLineOnly | envfile.go:108-140 | Neither a line feed nor a bare quote inside is read |
| Json.WalkDecides | service_metadata.go:426-475 | On the tokens of any value the walk consumes exactly that value and accepts it exactly when no object at any depth repeats a key after case folding |
| Json.RejectionIsExact | service_metadata.go:335-345 | A document is refused exactly for a repeated key or for trailing data |
| Json.AcceptedExactly | service_metadata.go:426-475 | On any tokens at all, what the walk accepts is exactly the stream of a value without repeated keys |
| Json.Decoder.WalkJsonValue | service_metadata.go:426-475 | The recursive walk over the decoder gives the walk's result and stops right behind the value |
| Json.RejectDuplicateJsonFields | service_metadata.go:335-345 | The walk followed by the end-of-input check |
| Json.DocumentIsExact | service_metadata.go:335-345 | A token stream is a document of a value exactly when it is the stream of that value |
| ServiceMetadata.ParseServiceMetadata | service_metadata.go:181-279 | The metadata, or the first failure, that the v1/v2/v3 grammar gives for any bytes, raw categories that are not UTF-8 included |
| ServiceMetadata.CheckEntries | service_metadata.go:181-279 | Fills the overrides, or stops at the first entry that is invalid or repeats an id |
| ServiceMetadata.SerializeServiceMetadataDocumentV3 | service_metadata.go:146-179 | The encoding of the id-sorted document if it parses again, and never an encoding with a repeated id |
| ServiceMetadata.ParsedIsWellFormed | service_metadata.go:181-279 | Accepted documents have valid non-empty entries with distinct ids, within both bounds |
| ServiceMetadata.OverridesAreTheEntries | service_metadata.go:181-279 | In all accepted metadata the override under an id, of which cards are made, has the name, category, icon and order of the entry with that id and the parsed form of its URL, and there is none without an entry |
| ServiceMetadata.VersionsRead | service_metadata.go:181-279 | A document with the fields of its version, 1, 2 or 3, reads as written, and one of another version is refused |
| ServiceMetadata.FieldsOfVersion | service_metadata.go:347-410 | An accepted entry uses only fields that its version knows, and null only where version 1 had the field |
| ServiceMetadata.AcceptedFields | service_metadata.go:181-279 | Accepted ids are positive, names and categories are trimmed lines of at most 120 and 64 characters, URLs have at most 2048 bytes, orders go up to 1000000, and no entry is empty |
| ServiceMetadata.SerializedReadsBack | service_metadata.go:146-179 | Serializing fails exactly beyond 1024 entries or 256 KiB, and otherwise reads back as the id-sorted v3 document |
| ServiceMetadata.SortIsUnique | service_metadata.go:146-179 | With distinct ids every sort by id, stable or not, gives the same list |
| MetadataEdit.MutateServiceMetadata | service_metadata_editor.go:251-294 | The edited document, or a refusal exactly when a field is invalid |
| MetadataEdit.MutatedMembers | service_metadata_editor.go:251-294 | Exactly the other entries and the edited one unless empty, in strictly ascending id order |
| MetadataEdit.EditIsLocal | service_metadata_editor.go:251-294 | Other entries and the target's category and order survive, and no empty entry appears |
| MetadataEdit.LastEditWins | service_metadata_editor.go:251-294 | Of two edits of one entry the later decides; equal edits are idempotent |
| MetadataEdit.SaveThenReset | service_metadata_editor.go:251-294 | Saving and then resetting is resetting |
| MetadataEdit.EditsCommute | service_metadata_editor.go:251-294 | Edits of different entries commute |
| MetadataEdit.UpgradeAndEdit | service_metadata_editor.go:251-294 | For any accepted v1, v2 or v3 file and edit, the printed v3 file reads back as the edited document, explicit nulls of other entries kept, and fails only on the two bounds |
| Policy.BuildIdentitySet | matcher.go:106-125 | What growing the set over some order of the groups comes to |
| Policy.IdentitySetIsOrderFree | matcher.go:106-125 | All map orders give the same set, and then the login's tokens and the groups that list one, if and only if no other group lists one of those groups |
| Policy.BuildMatchContext | matcher.go:314-331 | Tag addresses and own addresses as collected over the nodes |
| Policy.TagIpsMeaning | matcher.go:314-331 | A tag resolves to an address exactly when a node wears the one and has the other |
| Reach.TokensExactly | matcher.go:60-93 | The identity tokens are the login as it is and, without a domain, with and without a final @ |
| Reach.BracketsComeOff | matcher.go:279-292 | Of a bracketed selector the text in the brackets is left |
| Reach.PortsComeOff | matcher.go:279-292 | Behind a name that is no address a number or an asterisk comes off once; other texts and addresses stay |
| Reach.AliasesNeverShadow | matcher.go:179-211 | No alias takes the place of the wildcard, an address, a range, a login or a reserved kind |
| Reach.AliasesStand | matcher.go:179-211 | Any other plain name with an alias stands for that, its port stripped |
| Reach.SelectorExactly | matcher.go:179-262 | Over any nodes and aliases: a selector matches an address for a login exactly when what it denotes is everything, the address, a tag that a node with the address wears, autogroup:self with a node of the login that has it, or a range that contains it |
| Reach.EvidenceTells | matcher.go:179-262 | The evidence of a match has the selector, its stripped name, the first kind of reason that holds, and what it came to |
| ServiceMatcher.SourceGrantForRule | matcher.go:141-148 | The first source token that the identity set, or for a Grant the roles, grant |
| ServiceMatcher.DestinationGrant | matcher.go:170-177 | The evidence of the first destination selector that matches |
| ServiceMatcher.EvidenceIsUnique | matcher.go:446-505 | First-match evidence is determined by rules and viewer |
| ServiceMatcher.MatchHost | matcher.go:446-505 | A match exactly for a visible host, with the evidence of the first admitting rule |
| ServiceMatcher.EvaluateServices | matcher.go:446-505 | The sorted list of one match per visible host |
| ServiceMatcher.EvaluationIsUnique | matcher.go:446-505 | Without group chains and with distinct ids the whole list, evidence and order included, is determined by the snapshot, whatever the map order and however unstable the sort |
| ServiceMatcher.OneMatchPerVisibleHost | matcher.go:446-505 | The matched hosts are exactly the enabled hosts with a nonblank domain that some rule admits on their port, each once |
| Reach.VisibleExactly | matcher.go:446-505 | Without group chains a host is visible exactly when it is enabled, has a nonblank domain, and an ACL, or a Grant that opens its port, has a source that stands for the login and a selector that covers the host |
| Reach.ServicesExactly | matcher.go:446-505 | A login is shown exactly these hosts, and none without a login |
| Reach.EvidenceExactly | matcher.go:446-505 | The evidence of every match names the first ACL, or if there is none the first Grant, that lets the login through, with a source that stands for it and a selector that covers the host |
| ServiceMatcher.ViewerIsOrderFree | matcher.go:446-505 | Without group chains the viewer does not depend on map order |
| ServiceMatcher.MoreRulesShowMore | matcher.go:446-505 | Adding rules in any place never removes a host |
| ServiceMatcher.MetadataDoesNotInterfere | matcher.go:446-505 | Changing service metadata changes neither matched hosts nor evidence |
| ServiceMatcher.AnyOrganized | matcher.go:507-517 | Whether some override has a category or an order, in any map order |
| ServiceMatcher.GroupedCardsAreOrganized | handlers.go:247-254 | Whenever the page groups cards they were sorted in organized mode |
| ServiceCards.ResolvedCard | matcher.go:372-433 | A card exactly for a host with a nonblank domain; organization only from the metadata |
| ServiceCards.CardTells | matcher.go:372-433 | Name, category, order, icon and URL come from the metadata where it has them; otherwise the domain is the name, the first concrete domain being preferred, and the URL is made of it and an http scheme, https by default, or the card says what is missing |
| ServiceCards.CardLessIsStrictWeak | matcher.go:519-552 | The comparator is a strict weak order in both modes |
| ServiceCards.CardTrichotomy | matcher.go:519-552 | Cards it does not tell apart share category, order, folded name and id |
| ServiceCards.OrganizedPrecedence | matcher.go:519-552 | Categories come by folded and then exact name, the empty one last; in one, cards with an order come first, by number; with equal order they come as in plain mode |
| ServiceCards.PlainPrecedence | matcher.go:519-552 | In plain mode cards come by folded name, and by id where that is the same |
| ServiceCards.RenderServiceSections | handlers.go:256-283 | Each category once, the uncategorized last, and all cards in order |
| OverApproximation.StructuralDestinationMatches | matcher.go:336-359 | All structural matches in rule order, and whether a self selector was met |
| OverApproximation.CollectedFromMeaning | matcher.go:364-370 | The list is nonempty exactly when some permitting rule has a matching selector |
| OverApproximation.StructuralExactly | matcher.go:336-359 | A selector matches structurally exactly when it is not the self selector and covers the address for a login that owns no node |
| OverApproximation.VisibleIsCovered | matcher.go:336-505 | Whatever an identity sees is matched structurally, flagged, or reached through an alias of autogroup:self |
| OverApproximation.CoverageIsExact | matcher.go:336-505 | Coverage on every set of nodes holds if and only if no alias of autogroup:self grants the host that is neither flagged nor statically matched |
| OverApproximation.UncoveredHost | matcher.go:336-505 | In the other case there are nodes on which the identity sees a host that is not covered |
| OverApproximation.AliasIsUncovered | matcher.go:336-505 | A policy with the alias me for autogroup:self is one: its rule shows a login's own nodes, which nothing flags or matches |
| OverApproximation.DoctorHasSupportedJoin | doctor.go:568-580 | Whether some permitting rule has a selector that matches after its port is stripped once more |
| OverApproximation.DoctorJoinCoverage | doctor.go:521-566 | Both counts over the enabled hosts with a domain, and the sorted list of the domains of those not joined |
| OverApproximation.CoverageMeaning | doctor.go:521-566 | All hosts are joined exactly when the list is empty, and it holds exactly the domains of the hosts that are not, each with its forward host |
| OverApproximation.CoverageIsUnique | doctor.go:521-566 | Counts and list are determined by the snapshot |
| OverApproximation.DoctorSelectorIsExact | doctor.go:568-580 | Stripping a selector beforehand keeps all its matches if and only if a second stripping changes nothing or leaves the wildcard |
| OverApproximation.TwoPortsStripTwice | matcher.go:279-292 | A selector with two trailing ports is one for which it does not |
| OverApproximation.SeenButNotJoined | doctor.go:568-580 | With that selector as the only rule everybody sees a host that is not joined |
| OverApproximation.VisibleIsJoined | doctor.go:521-566 | With selectors that strip once, every host any identity sees is counted as joined |
| MachineMatcher.CollectAccess | machine_matcher.go:225-279 | The map holds, for each user a reaching rule names, the first check or else the first accept |
| MachineMatcher.EvaluateMachineSshAccess | machine_matcher.go:225-279 | One access per shown user in user order, with its winner's evidence |
| MachineMatcher.AccessIsDeclared | machine_matcher.go:225-279 | Each user at most once, with check exactly when a matching check rule lists it |
| MachineMatcher.AccessExactly | machine_matcher.go:225-279 | A user is listed with a check exactly when a reaching rule declares one, and with an accept exactly when one declares that, none a check, and, for other users than root, none a check on all non-root users |
| MachineMatcher.NonrootCheckDominates | machine_matcher.go:225-279 | A matching check on all non-root users leaves no accept but root's, and root needs a rule of its own |
| MachineMatcher.ActionsAreOrderFree | machine_matcher.go:225-279 | Users and actions do not depend on the order of the rules |
| MachineMatcher.PeriodIsOrderFree | machine_matcher.go:225-279 | The check period does not depend on it if and only if the competing rules agree on it |
| MachineMatcher.AccessListIsUnique | machine_matcher.go:225-279 | Map iteration leaves no trace in the list or its evidence |
| MachineMatcher.SomeoneIsShown | machine_matcher.go:225-279 | Access is nonempty exactly when some rule reaches the node and names a user |
| Machines.BuildSshIdentitySet | machine_matcher.go:178-193 | The login and exactly the groups that list it, in any map order |
| Machines.MachineTarget | machine_matcher.go:310-330 | The canonical name, else the first IPv4, else the first tailnet address |
| Machines.MachineGrantEvidence | machine_matcher.go:281-308 | The first Grant, source, address and destination that allow TCP 22 |
| Machines.GrantEvidenceMeaning | machine_matcher.go:281-308 | There is evidence exactly when some Grant admits TCP 22 to some tailnet address of the node |
| Machines.EvaluateMachines | machine_matcher.go:100-167 | The sorted list of one machine per listed node, and nothing for anyone but a direct member |
| Machines.ListedExactly | machine_matcher.go:100-167 | A node is listed exactly when it is capable, has a safe target, nonempty access and a Grant of TCP 22 to a tailnet address |
| Machines.ExactLoginForm | controlplane.go:670-676 | An exact login is a local part, one @ and a domain, without blanks and colons |
| Machines.SshReachExactly | machine_matcher.go:195-223 | An SSH rule reaches a node for a login exactly when a source is the login, a group that lists it or a role it has, and a destination is a tag of the node or, for the owner, autogroup:self |
| Machines.GrantedExactly | machine_matcher.go:281-308 | There is evidence exactly when over the policy some Grant opens TCP 22, has a source for the login, and covers some tailnet address of the node |
| Machines.TargetExactly | machine_matcher.go:310-330 | A canonical name is the target, and otherwise the first IPv4 tailnet address, or the first of any kind if there is none |
| Machines.MachinesExactly | machine_matcher.go:100-167 | A direct member is listed exactly the capable nodes with a safe target that an SSH rule naming a user and a Grant open to the login, over policy and nodes |
| Machines.MachinesInOrder | machine_matcher.go:100-167 | Machines come by target, and by node id where that is the same |
| Machines.MachineListIsUnique | machine_matcher.go:100-167 | With distinct node ids the list is determined |
| AddressPrefix.SetHostBits | service_health_config.go:378-392 | In place, every bit from the prefix length on is set and no other changed |
| AddressPrefix.PrefixEnds | service_health_config.go:378-392 | The result is base + 2^(width-length) - 1 |
| AddressPrefix.PrefixIsRange | service_health_config.go:378-392 | An address agrees with the prefix exactly when it lies between base and result |
| AddressPrefix.PrefixLastAddr | service_health_config.go:378-392 | Both of these for 4 and 16 octets, from any address in the prefix |
| ProbeTarget.ServiceProbeEngine.ResolveHost | service_probe.go:321-353 | The distinct unmapped answers of one lookup, if none of them is invalid, zoned or dangerous |
| ProbeTarget.ServiceProbeEngine.AddressAllowed | service_probe.go:367-378 | Not dangerous and in an allowed prefix |
| ProbeTarget.ServiceProbeEngine.ResolveAllowedTarget | service_probe.go:298-319 | All addresses of the target, or none if one is denied |
| ProbeTarget.ServiceProbeEngine.ValidateTarget | service_probe.go:265-287 | Approves exactly the targets that are allowed and share no address with a protected endpoint on their port |
| ProbeTarget.ServiceProbeEngine.DialValidated | service_probe.go:461-477 | Dials vetted addresses in order until one connects or the context expires; all dials so far stay safe |
| ProbeTarget.ServiceProbeEngine.Probe | service_probe.go:229-254 | Every dial it adds is to an address that its own validation approved as part of the whole target; and whatever was ever dialled was harmless, allowed and shown apart from each protected endpoint on its port by a lookup made by then |
| ProbeTarget.VettedIsSafe | service_probe.go:265-319 | Every approved address is harmless, allowed, and outside the addresses of every protected endpoint on that port, as resolved in the same validation |
| ProbeTarget.DangerousExactly | service_health_config.go:370-376 | Dangerous are exactly the addresses in the prefixes for unspecified, loopback, link-local, multicast and broadcast |
| ProbeTarget.UnmapExactly | service_probe.go:321-353 | An address in ::ffff:0:0/96 stands for its last four octets, and every other for itself |
| ProbeTarget.NameApprovedExactly | service_probe.go:265-319 | A name is approved exactly when it is allowed, no protected endpoint itself, and its answers are there, all harmless and in an allowed prefix, and none an address of a protected endpoint on the port |
| ProbeTarget.AddressApprovedExactly | service_probe.go:265-319 | An address is approved exactly when it is harmless, in an allowed prefix, no protected endpoint itself and no address of one on the port |
| ProbeTarget.AllOrNothing | service_probe.go:298-353 | One denied answer rejects the target, and an approved one consists of exactly the answers |
| TailscaleOwners.NormalizeStrings | controlplane.go:1114-1128 | The distinct trimmed nonblank strings in order |
| TailscaleOwners.ValidateTailscaleUsers | tailscale.go:208-263 | Accepts exactly the lists of valid users with distinct ids, distinct logins and no id that is another's login, with the role entries |
| TailscaleOwners.ResolveTailscaleOwner | tailscale.go:376-395 | The login if exactly one matches, and otherwise whether none or several do |
| TailscaleOwners.AcceptedIsUnambiguous | tailscale.go:208-263 | Given valid fields and distinct logins, a list is accepted if and only if no reference at all is ambiguous |
| TailscaleOwners.AcceptedUser | tailscale.go:208-263 | A single user is accepted exactly with a nonempty id, a trimmed nonempty login, a type member or shared and one of the seven roles |
| TailscaleOwners.OwnersResolve | tailscale.go:376-395 | In an accepted list the id and the login of every user resolve to that user |
| TailscaleOwners.RoleEntries | tailscale.go:208-263 | Exactly the member-type users have entries: member and role, and admin for an owner |

## Left out

- Lexing JSON, parsing URLs and IP texts, Unicode tables beyond ASCII: parameters of the models (`Library`,
  `Network`, `UrlLibrary`, `PrintTable`), with the laws they must obey stated where they are used.
- HMAC: an injective constructor `Mac`; a client may present any other text, but cannot compute a digest of another
  purpose, key or value.
- Goroutines and channels are steps of a state machine in which a send and its receive are one step; `RunPool` runs
  it under an arbitrary schedule. That probes return is assumed, as their contexts have timeouts.
- File identity, owner, mode and symlink checks of the editor: part of a read that may fail. The lock is a call of
  startup that may fail; a second process that holds it is not modelled beyond what it leaves on the disk.
- The random name of a temporary file and the inode a writer creates are parameters, and not in use: the calls that
  create them are exclusive.
- Writing the environment file (`envfile.go:271-325`), which has no directory sync to reason about.
- The duplicate-key walker of the health configuration (`service_health_config.go:489-551`): the same walk as the one
  modelled, over the same tokens.
- The prompts, reading of standard input and output file of the suggestion command.
- Error texts, and in user validation which of several errors is reported.
- `OverApproximation.VisibleIsJoined` goes one way for a whole policy: another selector may join a host for which
  one selector fails; selector by selector the condition is exact.
- Policy and configuration parsers, OAuth, HTTP and TLS transport, handlers and pages apart from the grouping loop,
  CLI, setup wizard, redaction: not part of this model.
