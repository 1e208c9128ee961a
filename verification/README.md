# aerospike-kubernetes-init, modelled in Dafny

This project models the decision logic of the Aerospike Kubernetes init container and of
its `aku-adm` utility. The init container runs before every Aerospike pod starts. It
works out the pod's node ID and rack. It gathers the ports and addresses that go into the
Aerospike configuration. On a pod restart it brings the pod's persistent volumes up to
date: volumes whose PVC changed are initialised, volumes are wiped when the image change
crosses the storage-format boundary, and dirty volumes are cleaned. `aku-adm` runs the
pod's lifecycle hooks: post-start user creation, the liveness probe, and the pre-stop
drain. The drain waits for a stable cluster, quiesces the node, reclusters, and then
waits until the node has no throughput and no proxies left. The model also covers the
small parsers these use: the `InfoParser` cursor over info responses, the two ops/sec
reducers over `latency:` and `latencies:` replies, `parseStats`, the build-version gate,
and the certificate-path option parser.

Everything is pure: each Go function becomes a Dafny function or method over immutable
values. The Kubernetes client, the Aerospike client, the file system and `exec` become
oracles, passed in as function-typed parameters:

- an info request maps to a reply, or to `Failed`;
- a volume name maps to its PVC UID, or to an error;
- a path maps to whether `os.Stat` finds it;
- an image maps to its major version.

Retry loops with a sleep become one round per call. The pre-stop drain becomes a phase
machine (`DrainTrace.Step`), and its runs are sequences of rounds (`DrainTrace.Run`).

Modules, one per file:

- `Wrappers`: `Option` and `Result`.
- `Strings`: Go `strings` Index, Split, Join and Count on one-character separators.
- `Numeric`: `strconv.Atoi` and int64 wrap-around.
- `Seqs`: the first-match search the rack and service loops share.
- `Paths`: `filepath.Clean` and `filepath.Join` on rooted paths.
- `InfoParser`, `Latency`, `Stats`, `Version`, `Certs`: `aerospike-utility/aku-utils.go`
  and `getLatencyCommand`.
- `Drain`: one round of each retry loop of the drains.
- `DrainTrace`: the pre-stop phase machine.
- `Lifecycle`: liveness, post-start, the community drain and `performOperation`.
- `PodInfo`, `Network`: `pkg/utils.go`.
- `Volumes`, `VolumeInit`, `VolumeClean`, `VolumeManage`: `pkg/update_pod_status_util.go`.

In these places the code behaves in ways a reader might not expect, and the model follows it:

- The pre-stop idempotency guard (the check that no node reports
  `pending_quiesce=false`, that is, quiesce is still pending on every node) runs after the quiesce and recluster loops. A repeated pre-stop
  therefore sends `quiesce:` and `recluster:` again before the guard can stop it.
  `DrainTrace.NoQuiesceAfterGuard` states only what the code promises: nothing after the
  guard sends them.
- The effective-quiesce loop does not stop at a local node that lists no namespace. It
  goes on to the next node (`Drain.EffectiveScanSpec`).
- When a namespace statistics request fails part-way through the proxy tally, the partial
  tally is still compared with the previous total and replaces it
  (`Drain.ProxyPartialBaseline`).
- When `wipeVolumes` meets a block volume with an unknown wipe method, it reports the
  volume's init method in the error text (`VolumeClean.WipeCheck`, as written).

## Model

| member | source | states |
|---|---|---|
| Strings.IndexOf | aerospike-utility/aku-utils.go:498 | the position of the first separator, absent exactly when the text holds none |
| Strings.SplitFree | aerospike-utility/aku-utils.go:498 | no piece of `strings.Split` contains the separator |
| Strings.Split | aerospike-utility/aku-utils.go:498 | `strings.Split` on a one-character separator; its partners state that no piece holds the separator (`SplitFree`), that joining the pieces gives the text back (`JoinSplit`), and that there is one piece more than separators (`SplitCount`) |
| Strings.JoinSplit | aerospike-utility/aku-utils.go:498 | joining the pieces with the separator gives the text back |
| Strings.SplitCount | aerospike-utility/aku-utils.go:497-498 | `Split` yields `Count + 1` pieces, the map capacity `parseStats` reserves |
| Strings.Count | aerospike-utility/aku-utils.go:497 | `strings.Count` of one character; `SplitCount` ties it to the number of pieces and so to the capacity `parseStats` reserves |
| Strings.SplitJoin | aerospike-utility/aku-utils.go:498 | splitting a join of separator-free parts gives the parts back |
| Strings.Join | aerospike-utility/aku-utils.go:498 | `strings.Join`; `SplitJoin` states that splitting a join of separator-free parts gives the parts back, and `JoinSplit` the converse |
| Strings.SplitAppend | aerospike-utility/aku-utils.go:498 | splitting at a separator splits the two sides independently |
| Strings.SplitAt | pkg/utils.go:132 | `Split` cuts at the first separator and splits the rest |
| Strings.SplitAbsent | pkg/utils.go:132 | a separator-free text splits into itself alone |
| Numeric.NatToStringRoundTrip | pkg/utils.go:147 | reading back the decimal text of a number gives the number |
| Numeric.ParseAtoi | pkg/utils.go:147 | `strconv.Atoi`: ok exactly for a signed decimal in int64 range, with that value; out-of-range text, including leading digits past uint64 before any other character, is clamped to the int64 bound of its sign; any other rejected text gives 0 |
| Numeric.AtoiOverflowFirst | aerospike-utility/aku-adm.go:569-585 | digits past uint64 are clamped to the bound of their sign whatever follows them, as `strconv.ParseUint` stops at the overflowing digit |
| Numeric.AtoiOverflowExample | aerospike-utility/aku-adm.go:569-585 | `Atoi("99999999999999999999x")` is MaxInt64 with an error |
| Numeric.AtoiNegativeOverflowExample | aerospike-utility/aku-adm.go:569-585 | `Atoi("-99999999999999999999x")` is MinInt64 with an error |
| Numeric.AtoiSyntaxExample | pkg/utils.go:147 | `Atoi("12x")` is 0 with an error |
| Numeric.AtoiEmpty | aerospike-utility/aku-adm.go:569-585 | a missing metric, read as `""`, gives 0 with an error |
| Numeric.Wrap64 | aerospike-utility/aku-adm.go:569-585 | a Go int's value lies in the int64 range |
| Numeric.Wrap64Mod | aerospike-utility/aku-adm.go:569-585 | wrapping changes a value by a multiple of 2^64 |
| Numeric.Wrap64Add | aerospike-utility/aku-adm.go:569-585 | adding in int64 step by step equals adding exactly and wrapping once |
| Numeric.Wrap64InRange | aerospike-utility/aku-adm.go:569-585 | an int64 value is left unchanged |
| Paths.Resolve | pkg/update_pod_status_util.go:42-48 | resolving `.`, `..` and empty elements leaves only plain elements |
| Paths.Clean | pkg/update_pod_status_util.go:42-48 | `filepath.Clean` keeps a rooted path rooted |
| Paths.JoinPath | pkg/update_pod_status_util.go:42-48 | `filepath.Join` onto a rooted base is rooted |
| Paths.CleanIdempotent | pkg/update_pod_status_util.go:42-48 | `Clean` returns a clean path, and cleaning it again changes nothing |
| Paths.ResolvePlain | pkg/update_pod_status_util.go:42-48 | plain elements pass through resolution unchanged |
| Paths.CleanPlain | pkg/update_pod_status_util.go:42-48 | a path of plain elements is already clean |
| Paths.ResolveJoined | pkg/update_pod_status_util.go:42-48 | splitting a rooted join of plain elements and resolving it gives the elements back |
| Paths.JoinPlain | pkg/update_pod_status_util.go:42-48 | joining a clean base and a plain name puts one `/` between them |
| InfoParser.Expect | aerospike-utility/aku-utils.go:323-338 | an empty literal succeeds without reading; at end of input a non-empty literal fails and reads nothing; otherwise `min(|lit|, |rem|)` characters (one per byte) are consumed, match or not, and with enough input it succeeds exactly when they equal the literal |
| InfoParser.PeekAndExpect | aerospike-utility/aku-utils.go:308-321 | success means the literal is next; a literal of at most the 4096-character buffer that is next always succeeds; the cursor does not move |
| InfoParser.ExpectMismatch | aerospike-utility/aku-utils.go:323-338 | a one-character literal that is not next consumes that character and fails |
| InfoParser.PeekMismatch | aerospike-utility/aku-utils.go:308-321 | peeking fails as soon as the next character differs from the literal's first |
| InfoParser.ExpectFound | aerospike-utility/aku-utils.go:323-338 | on `lit + b` the expectation succeeds and leaves `b` |
| InfoParser.ReadBytes | aerospike-utility/aku-utils.go:342 | `bufio.ReadBytes`: at end of input nothing is left; otherwise input is consumed |
| InfoParser.ReadBytesFound | aerospike-utility/aku-utils.go:342 | with a delimiter ahead, the text is the delimiter-free prefix and the delimiter, and prefix, delimiter and rest make up the input |
| InfoParser.ReadBytesAbsent | aerospike-utility/aku-utils.go:342 | without a delimiter ahead, all the input is returned with `io.EOF` |
| InfoParser.ReadUntil | aerospike-utility/aku-utils.go:340-355 | at `io.EOF` nothing is left; otherwise input is consumed |
| InfoParser.ReadUntilSpec | aerospike-utility/aku-utils.go:340-355 | with a delimiter ahead: the text before it, and the input is that text, the delimiter and the rest; without one: `io.EOF`, and the input minus its last character (a lone character as it is) |
| InfoParser.ReadUntilFound | aerospike-utility/aku-utils.go:340-355 | on `a + [d] + b` with a `d`-free `a`, it returns `a` and leaves `b` |
| Latency.SectionHeader | aerospike-utility/aku-utils.go:365-396 | the shared header steps: an empty input stops; a skip or a body always consumes input; a header alone never adds a value |
| Latency.LegacyBody | aerospike-utility/aku-utils.go:398-428 | the legacy data body never skips, and what it adds leaves no more than the body |
| Latency.NewBody | aerospike-utility/aku-utils.go:472-490 | the new-format data body never skips, and what it adds leaves no more than the body |
| Latency.LegacyPass | aerospike-utility/aku-utils.go:363-432 | one legacy iteration: an empty input stops; every iteration that goes on consumes input |
| Latency.NewPass | aerospike-utility/aku-utils.go:438-494 | one new-format iteration: an empty input stops; every iteration that goes on consumes input |
| Latency.LegacyStep | aerospike-utility/aku-utils.go:363-432 | the legacy loop always terminates |
| Latency.NewStep | aerospike-utility/aku-utils.go:438-494 | the new-format loop always terminates |
| Latency.GetOpsPerSecLegacy | aerospike-utility/aku-utils.go:363-432 | the returned error is always nil, and an empty response gives 0 |
| Latency.GetOpsPerSecNew | aerospike-utility/aku-utils.go:438-494 | the returned error is always nil, and an empty response gives 0 |
| Latency.HeaderOntoReads | aerospike-utility/aku-utils.go:374-396 | a well-formed `{ns}-op:` header followed by a body hands on that body |
| Latency.HeaderOntoEmpty | aerospike-utility/aku-utils.go:390-396 | a header followed by `;` is an empty section, skipped |
| Latency.NoiseReads | aerospike-utility/aku-utils.go:366-371 | text that does not open with `{` is skipped through the next `;` |
| Latency.NoiseAtEnd | aerospike-utility/aku-utils.go:366-371 | such text with no `;` left ends the loop |
| Latency.BucketsRead | aerospike-utility/aku-utils.go:416-426 | the bucket list read to `;` adds its first value, or stops when it does not parse |
| Latency.LegacyPassReadsSection | aerospike-utility/aku-utils.go:363-432 | the legacy iteration reads every well-formed section as it describes: data adds its first bucket, the rest are skipped |
| Latency.NewPassReadsSection | aerospike-utility/aku-utils.go:438-494 | the new-format iteration reads every well-formed section as it describes |
| Latency.ReduceSections | aerospike-utility/aku-utils.go:363-432 | a loop over sections it reads as described adds their values and leaves the tail |
| Latency.ReduceSectionsToStop | aerospike-utility/aku-utils.go:363-432 | when the pass on the tail stops, the loop's result is exactly the sum |
| Latency.LegacySumsSections | aerospike-utility/aku-utils.go:363-432 | the legacy ops/sec of a response of well-formed sections is the sum of their first bucket values, with a nil error |
| Latency.NewSumsSections | aerospike-utility/aku-utils.go:438-494 | the new-format ops/sec of a response of well-formed sections is the sum of their first bucket values, with a nil error |
| Latency.LegacyStopsAtBadValue | aerospike-utility/aku-utils.go:423-426 | a data section whose first bucket does not parse ends the sum before it |
| Latency.EncodeAllAppend | aerospike-utility/aku-utils.go:363-432 | encoding one more section at the end puts its text before the tail |
| Latency.LegacyEmptySectionExample | aerospike-utility/aku-utils.go:390-396 | `{test}-write:;` gives 0 with no error |
| Latency.NewErrorStringExample | aerospike-utility/aku-utils.go:441-446 | an error string in place of a section is skipped |
| Latency.LegacyDataExample | aerospike-utility/aku-utils.go:363-432 | a legacy data section adds the first value after the sample timestamp |
| Latency.NewDataExample | aerospike-utility/aku-utils.go:438-494 | a new-format data section adds the first value after the time unit |
| Latency.NewTruncatedBuckets | aerospike-utility/aku-utils.go:479-485 | a bucket list cut off without its `;` loses its last character before it is parsed |
| Latency.LegacyTwoSections | aerospike-utility/aku-utils.go:363-432 | two readable legacy sections add up |
| Latency.NewTwoSections | aerospike-utility/aku-utils.go:438-494 | two readable new-format sections add up |
| Latency.LegacyDocExample | aerospike-utility/aku-utils.go:357-362 | the documented legacy response gives 29648.2 |
| Latency.NewDocExample | aerospike-utility/aku-utils.go:434-437 | the documented new-format response gives 4234.9 |
| Stats.KeyValue | aerospike-utility/aku-utils.go:500-508 | `SplitN(record, "=", 2)`: no pair exactly when there is no `=`; otherwise the key is `=`-free and key, `=` and value make up the record |
| Stats.Get | aerospike-utility/aku-adm.go:287 | a Go map lookup: the value for a present key, `""` otherwise |
| Stats.CollectKeys | aerospike-utility/aku-utils.go:496-511 | a key is in the map exactly when some record sets it |
| Stats.CollectLast | aerospike-utility/aku-utils.go:496-511 | a key maps to the value of the last record setting it |
| Stats.FieldTexts | aerospike-utility/aku-utils.go:496-511 | one record text per field, in order |
| Stats.KeyValueOfFieldText | aerospike-utility/aku-utils.go:500-508 | the record text of a field reads back as that field |
| Stats.ParseStatsJoin | aerospike-utility/aku-utils.go:496-511 | `parseStats` of the joined records of distinct-keyed fields is exactly those fields |
| Stats.ParseStats | aerospike-utility/aku-utils.go:496-511 | `parseStats`; `CollectKeys` and `CollectLast` state that a key is present exactly when some record sets it, with the value of the last such record, and `ParseStatsJoin` that written fields with distinct keys read back exactly |
| Stats.ParseStatsOverwrite | aerospike-utility/aku-utils.go:496-511 | a later record for the same key overwrites an earlier one, and a record without `=` is ignored |
| Stats.ParseStatsEmpty | aerospike-utility/aku-utils.go:496-511 | an empty response gives an empty map |
| Version.Segments | aerospike-utility/aku-adm.go:621 | dotted segments read exactly when each is an int64-sized run of digits, and each gets its decimal value |
| Version.ParseVersion | aerospike-utility/aku-adm.go:621 | a version that reads has at least one segment |
| Version.CompareFrom | aerospike-utility/aku-adm.go:633 | comparison gives -1, 0 or 1 |
| Version.CompareFromSpec | aerospike-utility/aku-adm.go:633 | comparison is 0 exactly for the same zero-padded version, 1 exactly when the first is later, and -1 exactly when the second is |
| Version.CompareSpec | aerospike-utility/aku-adm.go:633 | `GreaterThanOrEqual` is the same version or a later one |
| Version.Compare | aerospike-utility/aku-adm.go:633 | the go-version comparison of segment lists; `CompareFromSpec` states that it is 0, 1 or -1 exactly for the same zero-padded version, a later one and an earlier one |
| Version.LaterAsymmetric | aerospike-utility/aku-adm.go:633 | the later-than order is asymmetric |
| Version.CompareFromPastEnd | aerospike-utility/aku-adm.go:633 | past the end of the reference, a version is never behind |
| Version.AtLeastReference | aerospike-utility/aku-adm.go:619-633 | at least 5.1.0.0 means major above 5, or major 5 and minor at least 1 |
| Version.GetLatencyCommand | aerospike-utility/aku-adm.go:618-638 | an error exactly for a malformed version; otherwise `latencies:` exactly from 5.1 on, and `latency:` before |
| Version.Render | aerospike-utility/aku-adm.go:621 | a non-empty version renders to non-empty text |
| Version.ParseRender | aerospike-utility/aku-adm.go:621 | reading back the rendering of int64-sized segments gives the segments |
| Version.ParseVersionRender | aerospike-utility/aku-adm.go:621 | a rendered version, with or without a leading `v`, parses back to its segments |
| Version.NewBuildExample | aerospike-utility/aku-adm.go:615-617 | build 5.1.0.0 gets `latencies:` |
| Version.OldBuildExample | aerospike-utility/aku-adm.go:615-617 | build 5.0.9 gets `latency:` |
| Version.ShortBuildExample | aerospike-utility/aku-adm.go:615-617 | build `v6` gets `latencies:` |
| Version.EmptyVersion | aerospike-utility/aku-adm.go:621-625 | an empty version is an error |
| Version.TrailingDot | aerospike-utility/aku-adm.go:621-625 | a version ending in a dot is an error |
| Version.StrayCharacter | aerospike-utility/aku-adm.go:621-625 | after the optional `v`, any character other than digits and dots makes an error |
| Certs.GetCertFilePath | aerospike-utility/aku-utils.go:193-216 | an empty certificate name is an error |
| Certs.OneColon | aerospike-utility/aku-utils.go:199-211 | with one colon, `file:` gives the value, `b64enc:` the decoded path under the config mount point, and any other option an error |
| Certs.ManyColons | aerospike-utility/aku-utils.go:213-215 | two or more colons are always an error |
| Certs.SuccessOptions | aerospike-utility/aku-utils.go:199-215 | a success on an input with a colon came from `file:` or `b64enc:` followed by a colon-free value |
| Certs.NoColon | aerospike-utility/aku-utils.go:201-203 | a non-empty name without a colon is used as it is |
| PodInfo.NodeID | pkg/utils.go:131-141 | an error, with its message, exactly when the pod name has fewer than two `-` |
| PodInfo.PodNameParts | pkg/utils.go:136-138 | the rack ID and ordinal are the last two parts of a pod name, whatever `-`s the cluster name holds |
| PodInfo.NodeIDOfPodName | pkg/utils.go:131-141 | the node ID of a pod is its rack ID, `a` and its ordinal |
| Seqs.FindFirst | pkg/utils.go:154-160 | the first element meeting the test (the first rack with the ID, and in `getPorts` at pkg/utils.go:269-271 the first service named after the pod), or none when no element meets it |
| PodInfo.GetRack | pkg/utils.go:143-163 | success exactly when the rack-ID part reads as an int and some rack has that ID; the result is the first such rack |
| PodInfo.RackOfPodName | pkg/utils.go:143-163 | for a pod the operator named, `getRack` returns the first rack with the pod's rack ID, and fails exactly when there is none |
| Network.IsNodeNetwork | pkg/utils.go:288-300 | node network exactly when some access type is neither `pod` nor `customInterface` |
| Network.TypesSize | pkg/utils.go:288-300 | the six-element set has more than two members exactly when some access type is neither of the two |
| Network.ScanPorts | pkg/utils.go:272-279 | the last port named `service` and the last named `tls-service` win, and 0 when there is none |
| Network.GetPorts | pkg/utils.go:259-286 | a failed list is the error; no service named after the pod gives 0 and 0; otherwise the ports of the first such service |
| Network.LastIndex | pkg/utils.go:272-279 | the reported node port is that of the last port with the name |
| Network.FindNode | pkg/utils.go:314-351 | the first node having the host IP among its addresses, or none |
| Network.ScanAddresses | pkg/utils.go:320-330 | the host IP is matched exactly when some address is it; internal and external are the last IPv4 addresses of their kinds |
| Network.GetHostIPs | pkg/utils.go:303-354 | a failed list is the error; both IPs default to the host IP; the first matching node overrides them with its IPv4 addresses and its configured-address labels, where it has them |
| Network.FindNodeAt | pkg/utils.go:314-351 | a matching node with no match before it is the one found |
| Network.CollectIPs | pkg/utils.go:381-390 | succeeds exactly when no selected network lacks IPs; then the IPs of the selected networks in status order; otherwise the error names a selected network without IPs |
| Network.ParseCustomNetworkIP | pkg/utils.go:358-398 | other network types give no IPs and no error; a missing annotation is an error; success means the annotation decoded, no selected network lacks IPs and some IP was found, and with a decoded annotation success is exactly that |
| Network.SelectedIPsSpec | pkg/utils.go:381-390 | an IP is collected exactly when some selected network lists it |
| Network.SelectedIPsEmpty | pkg/utils.go:392-395 | with every selected network listing IPs, none is found exactly when no selected network is in the status |
| Volumes.PersistentVolumes | pkg/update_pod_status_util.go:150-159 | the persistent volumes, and only they |
| Volumes.MountPoint | pkg/update_pod_status_util.go:42-48 | a mount point is a rooted path |
| Volumes.MountPointPlain | pkg/update_pod_status_util.go:42-48 | for a plain name, block volumes sit under `/workdir/block-volumes/` and all others under `/workdir/filesystem-volumes/` |
| Volumes.MountError | pkg/update_pod_status_util.go:263 | the "mounting point ... does not exist" error of a volume whose mount point the lookup misses; `InitFrom`, `CleanFromErrors` and `WipeErrors` state when it is returned |
| Volumes.Remove | pkg/update_pod_status_util.go:374-382 | a value not in the list leaves it unchanged; otherwise one copy of it is removed and nothing else |
| Volumes.RemoveAt | pkg/update_pod_status_util.go:374-382 | the copy removed is the first, and the elements around it stay in order |
| Volumes.NamePartSplit | pkg/update_pod_status_util.go:218-219 | an entry's name part is the first piece `strings.Split(e, "@")` gives |
| Volumes.NamePart | pkg/update_pod_status_util.go:218 | the name part of an initialised-list entry; `NamePartSplit` states it is the first piece of `strings.Split(e, "@")` |
| Volumes.EntryParts | pkg/update_pod_status_util.go:317 | an entry `name@uid` of `@`-free parts reads back as that name and UID |
| Volumes.KeepNewFormat | pkg/update_pod_status_util.go:329-340 | exactly the entries with one `@` are kept |
| Volumes.KeepNewFormatAppend | pkg/update_pod_status_util.go:329-340 | the filter keeps order, working on each part of a list separately |
| Volumes.KeepNewFormatAll | pkg/update_pod_status_util.go:329-340 | a list already in the new format is left as it is, so filtering twice is filtering once |
| Volumes.FindVolume | pkg/update_pod_status_util.go:217-219 | the first entry recording the volume, or none |
| Volumes.FindFrom | pkg/update_pod_status_util.go:217-219 | the first entry recording the volume from an index on, or none |
| Volumes.InitialisationNeeded | pkg/update_pod_status_util.go:215-230 | initialisation is needed exactly when the first entry for the volume does not record its UID; a changed UID removes that entry and nothing else; otherwise the list is unchanged |
| Volumes.InitJob | pkg/update_pod_status_util.go:266-315 | an init method is accepted exactly when the volume's mode allows it; `none` starts no command, and any other command targets the volume's mount point |
| Volumes.WipeJob | pkg/update_pod_status_util.go:404-425 | a block wipe accepts exactly `dd` and `blkdiscard`, and runs that command |
| Volumes.CrossesWipeBoundarySpec | pkg/update_pod_status_util.go:572-573 | the wipe condition holds exactly when one major version is below 6 and the other is not; it is symmetric and never holds for equal versions |
| Volumes.CrossesWipeBoundary | pkg/update_pod_status_util.go:572-573 | the image-change wipe test; `CrossesWipeBoundarySpec` states it holds exactly when one major version is below 6 and the other is not, and `ShouldWipeSymmetric` that it is symmetric |
| Volumes.ShouldWipe | pkg/update_pod_status_util.go:561-583 | no previous image means no wipe; an unreadable previous version is the error; a wipe needs both versions read |
| Volumes.ShouldWipeSymmetric | pkg/update_pod_status_util.go:561-583 | with both versions read, the decision is the boundary test, the same either way round |
| VolumeInit.InitFrom | pkg/update_pod_status_util.go:246-323 | the loop succeeds only when every UID lookup succeeds, fails only at a volume whose lookup, mount point or method is bad, and succeeds when no volume has such trouble |
| VolumeInit.NeededKeepsFormat | pkg/update_pod_status_util.go:215-230 | a new-format list can be read for any name, and what remains of it stays in the new format |
| VolumeInit.RecordsRemove | pkg/update_pod_status_util.go:222 | removing another volume's entry leaves a volume's record as it was |
| VolumeInit.StepKeeps | pkg/update_pod_status_util.go:249-317 | one round keeps every volume that was recorded with its current UID recorded |
| VolumeInit.StepRecords | pkg/update_pod_status_util.go:249-317 | after a round for a volume, it is recorded with its current UID |
| VolumeInit.InitFromKeeps | pkg/update_pod_status_util.go:246-326 | a volume recorded with its current UID before the loop is still recorded after it |
| VolumeInit.InitFromRecordsAll | pkg/update_pod_status_util.go:246-326 | after a successful loop every visited volume is recorded with its current UID |
| VolumeInit.InitFromFormat | pkg/update_pod_status_util.go:246-326 | after a successful loop the list is all in the new format |
| VolumeInit.InitFromRecorded | pkg/update_pod_status_util.go:246-326 | when every volume is already recorded with its current UID, nothing is initialised and the list stays |
| VolumeInit.InitIdempotent | pkg/update_pod_status_util.go:232-327 | running `initVolumes` again on the list it returned, with the same PVCs, initialises nothing and returns that list unchanged |
| VolumeInit.InitRecordsEveryVolume | pkg/update_pod_status_util.go:232-327 | after success, every persistent volume's first entry records its current PVC UID |
| VolumeInit.NeededShrinks | pkg/update_pod_status_util.go:215-230 | what remains of the list is part of it |
| VolumeInit.InitFromStep | pkg/update_pod_status_util.go:246-323 | a successful round for the first volume hands on part of the old list and adds at most that volume's entry |
| VolumeInit.InitFromShape | pkg/update_pod_status_util.go:246-326 | a successful loop returns the earlier entries, then one entry per initialised volume in order with its current UID, then what remains of the old list |
| VolumeInit.InitShape | pkg/update_pod_status_util.go:232-327 | `initVolumes` returns entries of persistent volumes with their current UID, followed by part of the old list's new-format entries |
| VolumeInit.InitVolumes | pkg/update_pod_status_util.go:232-327 | `initVolumes`; `InitShape` states the shape of its result, `InitRecordsEveryVolume` that success records every persistent volume with its current PVC UID, and `InitIdempotent` that a re-run on its own output changes nothing |
| VolumeInit.ImagesPersistent | pkg/update_pod_status_util.go:240 | entries made for the persistent volumes are entries of persistent volumes of the rack |
| VolumeClean.RemoveSub | pkg/update_pod_status_util.go:374-382 | what `remove` leaves was in the list, one copy fewer of the removed value, the same count of every other |
| VolumeClean.CountStep | pkg/update_pod_status_util.go:427 | one round's optional `remove` changes only the removed name's count, by one |
| VolumeClean.CleanFrom | pkg/update_pod_status_util.go:391-430 | the clean loop only takes names off the dirty list |
| VolumeClean.CleanFromErrors | pkg/update_pod_status_util.go:391-430 | a clean fails only at a cleanable volume whose mount point is missing or whose method is unknown, and succeeds when there is none |
| VolumeClean.CleanFromRemoves | pkg/update_pod_status_util.go:391-430 | a name loses a copy only for a cleanable volume of that name |
| VolumeClean.CleanFromCounts | pkg/update_pod_status_util.go:391-430 | with distinct names, a successful clean takes one copy of a name off exactly when a volume of that name was cleanable |
| VolumeClean.PersistentDistinct | pkg/update_pod_status_util.go:150-159 | taking the persistent volumes keeps names distinct |
| VolumeClean.CleanDirtyCounts | pkg/update_pod_status_util.go:384-436 | a successful `cleanDirtyVolumes` takes one copy of a name off exactly when a persistent volume of that name was dirty, at a namespace device path and in block mode; no other count changes |
| VolumeClean.CleanDirtyVolumes | pkg/update_pod_status_util.go:384-436 | `cleanDirtyVolumes`; `CleanDirtyCounts` states which names lose a copy on success and `CleanFromErrors` when it fails |
| VolumeClean.CleanNothing | pkg/update_pod_status_util.go:384-436 | a clean that finds nothing cleanable returns the list as it was, with no error |
| VolumeClean.CleanFromSame | pkg/update_pod_status_util.go:391-430 | the loop over volumes none of which is cleanable changes nothing |
| VolumeClean.FileName | pkg/update_pod_status_util.go:495 | the file part of `filepath.Split` holds no `/` |
| VolumeClean.FileFault | pkg/update_pod_status_util.go:493-509 | no fault exactly when no namespace file under the volume's path fails its lookup with anything but "does not exist"; a fault names such a file |
| VolumeClean.WipeCheck | pkg/update_pod_status_util.go:445-512 | the per-volume body of the `wipeVolumes` loop; `FileFault` states when a file lookup stops it, and `WipeErrors` that the loop fails exactly at the first volume this check rejects, with its error |
| VolumeClean.WipeFrom | pkg/update_pod_status_util.go:445-520 | the wipe loop only takes names off the dirty list |
| VolumeClean.WipeFromSucceeds | pkg/update_pod_status_util.go:445-520 | the loop succeeds exactly when every volume passes its check |
| VolumeClean.WipeFromFirstError | pkg/update_pod_status_util.go:445-520 | a failed loop reports the error of the first volume that fails its check |
| VolumeClean.WipeFromPass | pkg/update_pod_status_util.go:445-520 | a volume that passes hands on the list, one copy shorter when it was wiped |
| VolumeClean.WipeErrors | pkg/update_pod_status_util.go:438-524 | `wipeVolumes` succeeds exactly when every persistent volume passes its check, and otherwise reports the first persistent volume's error |
| VolumeClean.WipeVolumes | pkg/update_pod_status_util.go:438-524 | `wipeVolumes`; `WipeErrors` states when it fails and with which error, and `WipeDirtyCounts` which names lose a copy |
| VolumeClean.WipeFromRemoves | pkg/update_pod_status_util.go:445-520 | a name loses a copy only for a wiped volume of that name |
| VolumeClean.WipeFromCounts | pkg/update_pod_status_util.go:445-520 | with distinct names, a successful wipe takes one copy of a name off exactly when it is dirty and a volume of that name was wiped |
| VolumeClean.WipeDirtyCounts | pkg/update_pod_status_util.go:438-524 | a name loses a copy only for a persistent block volume at a namespace device path, and on success every such dirty name does; no other count changes |
| VolumeManage.ManageVolumes | pkg/update_pod_status_util.go:526-599 | the reported image is the pod's; a restart of any other type reports both lists unchanged; the dirty list only loses names |
| VolumeManage.ManageRecordsEveryVolume | pkg/update_pod_status_util.go:549-595 | after a successful pod restart every persistent volume is recorded with its current PVC UID |
| VolumeManage.ManageNoWipeWithoutImage | pkg/update_pod_status_util.go:561-589 | a pod without a previous image is never wiped: its dirty list only goes through the clean |
| VolumeManage.ManageNoWipeSameImage | pkg/update_pod_status_util.go:561-589 | restarting into the same image never wipes |
| VolumeManage.ManageRerunKeepsInitialized | pkg/update_pod_status_util.go:549-595 | restarting again with the reported status leaves the initialised-volume list as it was |
| VolumeManage.ManageInitialized | pkg/update_pod_status_util.go:549-595 | a successful restart reports the list the volume initialisation returned |
| Drain.StatsCommand | aerospike-utility/aku-adm.go:278 | the statistics command of a namespace starts with `namespace/` |
| Drain.SelectedNamespace | aerospike-utility/aku-adm.go:272-275 | the selected namespace holds no `;` |
| Drain.SelectedNamespaceSpec | aerospike-utility/aku-adm.go:272-275 | the selected namespace is the text before the first `;`, or all of it without one |
| Drain.FirstHalt | aerospike-utility/aku-adm.go:220-235 | the first node that halts a scan, or none when all continue |
| Drain.ScanContinues | aerospike-utility/aku-adm.go:216-244 | a scan in which every node continues ends with the loop's own verdict, having sent what they all send |
| Drain.Scan | aerospike-utility/aku-adm.go:216-244 | the node loop every drain phase runs; `ScanContinues`, `ScanHalts` and `ScanWithin` state its verdict and the requests it sends |
| Drain.ScanHalts | aerospike-utility/aku-adm.go:216-244 | a scan ends with the verdict of the first node that halts it, having sent what the nodes up to it send |
| Drain.ScanWithin | aerospike-utility/aku-adm.go:216-244 | a scan sends only what its nodes' probes send |
| Drain.Requests | aerospike-utility/aku-adm.go:220-221 | one request per node, in order |
| Drain.SentSingles | aerospike-utility/aku-adm.go:220-221 | nodes that each send one command send exactly one request each, in order |
| Drain.StableScanSpec | aerospike-utility/aku-adm.go:214-244 | the cluster-stable round advances exactly when every node answers and not with `ERROR::unstable-cluster`; otherwise it stops at the first node that does not, having asked the nodes in order |
| Drain.StableScan | aerospike-utility/aku-adm.go:214-244 | one cluster-stable round; `StableScanSpec` states its verdict and requests |
| Drain.FirstSelf | aerospike-utility/aku-adm.go:253-255 | the first node the drain runs on (loopback or the pod's IP), or none |
| Drain.ScanFirstSelf | aerospike-utility/aku-adm.go:252-302 | a scan that ignores other nodes and halts on a local one is decided by the first local node |
| Drain.QuiesceScan | aerospike-utility/aku-adm.go:246-311 | `quiesce:` goes to the first local node only, and is retried exactly when it fails; without a local node nothing is sent |
| Drain.PendingRound | aerospike-utility/aku-adm.go:264-298 | the wait for `pending_quiesce` asks the quiesced node only, starting with its namespace list, and ends exactly when it lists no namespace or the first reports `pending_quiesce=true` |
| Drain.ReclusterScanSpec | aerospike-utility/aku-adm.go:313-335 | the recluster round advances exactly when `recluster:` succeeds on every node, having asked each once in order |
| Drain.ReclusterScan | aerospike-utility/aku-adm.go:313-335 | one recluster round; `ReclusterScanSpec` states its verdict and requests |
| Drain.GuardProbe | aerospike-utility/aku-adm.go:346-372 | a node halts the guard exactly when it fails to answer or clears the flag, and advances it exactly when it clears the flag |
| Drain.GuardScan | aerospike-utility/aku-adm.go:341-378 | one round of the quiesce guard; `GuardFinishes` and `GuardAdvances` state its verdicts |
| Drain.GuardFinishes | aerospike-utility/aku-adm.go:339-419 | the guard finds the drain done exactly when every node answered and none reads `pending_quiesce=false` |
| Drain.GuardAdvances | aerospike-utility/aku-adm.go:339-419 | the guard advances exactly when some node clears the flag, every node before it answering without clearing it |
| Drain.FirstClearUnique | aerospike-utility/aku-adm.go:339-419 | only the first halting node can be the first node clearing the flag |
| Drain.EffectiveProbe | aerospike-utility/aku-adm.go:427-460 | only a local node that fails or names a namespace halts the round, and it advances exactly when `effective_is_quiesced` is `true` |
| Drain.EffectiveScanSpec | aerospike-utility/aku-adm.go:421-469 | the effective-quiesce round advances exactly when no local node decides it, or the first that does reports `effective_is_quiesced=true` |
| Drain.EffectiveScan | aerospike-utility/aku-adm.go:421-469 | one effective-quiesce round; `EffectiveScanSpec` states its verdict |
| Drain.ThroughputProbe | aerospike-utility/aku-adm.go:479-527 | exactly the local node halts the round, and it sends only the build and latency commands |
| Drain.ThroughputScanSpec | aerospike-utility/aku-adm.go:471-537 | without a local node the round advances; otherwise it asks for the build, then the latency command for that build, and advances exactly when the reported ops/sec is zero |
| Drain.ThroughputScan | aerospike-utility/aku-adm.go:471-537 | one throughput round; `ThroughputScanSpec` states its verdict |
| Drain.CounterValues | aerospike-utility/aku-adm.go:567-585 | one value per counter name |
| Drain.CounterValuesSpec | aerospike-utility/aku-adm.go:567-585 | each counter reads as `strconv.Atoi` of its metric, and a missing metric reads 0 |
| Drain.AddAll | aerospike-utility/aku-adm.go:569-585 | the running total stays an int64 |
| Drain.AddAllSum | aerospike-utility/aku-adm.go:569-585 | adding value by value in int64 is the exact sum, wrapped once |
| Drain.TallyFrom | aerospike-utility/aku-adm.go:559-586 | the tally stays an int64 and asks only the local node for namespace data |
| Drain.TallyTotal | aerospike-utility/aku-adm.go:559-586 | the tally is the exact sum over the namespaces answered before the first failure, wrapped to int64 |
| Drain.TallyComplete | aerospike-utility/aku-adm.go:559-586 | the tally is complete exactly when every namespace's statistics came back |
| Drain.ProxyRound | aerospike-utility/aku-adm.go:539-609 | a proxy round never finishes the drain, keeps the baseline an int64, and asks only local nodes for namespace data |
| Drain.ProxyVerdict | aerospike-utility/aku-adm.go:539-609 | the proxy round advances exactly when there is no local node, or the local node answered every request and its tally equals the baseline |
| Drain.ProxyBaseline | aerospike-utility/aku-adm.go:549-595 | the baseline left is the local node's tally whenever its namespace list came back |
| Drain.ProxySettles | aerospike-utility/aku-adm.go:539-609 | after a fully answered round has set the baseline, a round seeing the same counters advances |
| Drain.ProxyPartialBaseline | aerospike-utility/aku-adm.go:559-595 | a statistics failure part-way retries with the partial count as the new baseline |
| DrainTrace.SelfNode | aerospike-utility/aku-adm.go:253-255 | the node found is one the drain runs on |
| DrainTrace.PhaseRound | aerospike-utility/aku-adm.go:206-613 | a phase's round leaves an int64 baseline |
| DrainTrace.StepEdge | aerospike-utility/aku-adm.go:206-613 | every round stays in its phase or moves to a later loop of the source, so phases never go backwards |
| DrainTrace.Step | aerospike-utility/aku-adm.go:206-613 | one round of the pre-stop drain in any phase; `StepEdge` and `StepAllowed` state where it can lead and what it may send |
| DrainTrace.SuccessorEdge | aerospike-utility/aku-adm.go:206-613 | every verdict leads along an edge of the drain |
| DrainTrace.Successor | aerospike-utility/aku-adm.go:206-613 | the phase a verdict leads to; `SuccessorEdge` states that it is always an edge of the drain |
| DrainTrace.StepAllowed | aerospike-utility/aku-adm.go:206-613 | a round sends only the commands its phase uses, to the nodes it uses |
| DrainTrace.ThroughputSelf | aerospike-utility/aku-adm.go:471-537 | the throughput round sends only build and latency commands, to a local node |
| DrainTrace.Run | aerospike-utility/aku-adm.go:206-613 | a run has one phase per round plus the start, each the move from the one before |
| DrainTrace.DrainFollows | aerospike-utility/aku-adm.go:206-613 | the drain's every move follows an edge |
| DrainTrace.RunWalk | aerospike-utility/aku-adm.go:206-613 | a run of such a machine is a walk along edges |
| DrainTrace.WalkMonotone | aerospike-utility/aku-adm.go:206-613 | phases never go backwards along a walk |
| DrainTrace.Crossing | aerospike-utility/aku-adm.go:206-613 | a walk that passes a rank crosses it in one move |
| DrainTrace.RecheckStays | aerospike-utility/aku-adm.go:383-412 | once at the recheck, a walk stays there or stops |
| DrainTrace.RunMonotone | aerospike-utility/aku-adm.go:206-613 | along any run of the drain, phases never go backwards |
| DrainTrace.ReclusterAdvance | aerospike-utility/aku-adm.go:313-335 | the recluster round moves to the guard only when `recluster:` succeeded on every node |
| DrainTrace.StableAdvance | aerospike-utility/aku-adm.go:214-244 | the cluster-stable round moves on only when every node answered that the cluster is stable |
| DrainTrace.ReclusterBeforeGuard | aerospike-utility/aku-adm.go:313-341 | the guard is reached only through a recluster round in which `recluster:` succeeded on every node of that round |
| DrainTrace.EnterGuard | aerospike-utility/aku-adm.go:313-341 | the only move into the guard comes from the recluster phase |
| DrainTrace.StableBeforeQuiesce | aerospike-utility/aku-adm.go:214-248 | quiescing starts only after a round in which every node answered that the cluster is stable |
| DrainTrace.LateAllowed | aerospike-utility/aku-adm.go:339-609 | the guard and later phases send neither `quiesce:` nor `recluster:` |
| DrainTrace.NoQuiesceAfterGuard | aerospike-utility/aku-adm.go:339-609 | from the guard on, no round sends `quiesce:` or `recluster:` again |
| DrainTrace.ShortCircuit | aerospike-utility/aku-adm.go:380-416 | once the guard finds every node still quiescing, the drain only rechecks stability and stops, sending only the cluster-stable command |
| DrainTrace.RecheckSends | aerospike-utility/aku-adm.go:383-412 | the recheck sends only the cluster-stable command, and a finished drain sends nothing |
| DrainTrace.GuardToRecheck | aerospike-utility/aku-adm.go:380-416 | the guard goes to the recheck exactly when every node answered and none cleared the flag |
| DrainTrace.GuardStep | aerospike-utility/aku-adm.go:380-416 | the guard goes to the recheck exactly on its `Finish` verdict |
| Lifecycle.Liveness | aerospike-utility/aku-adm.go:160-197 | the probe succeeds exactly when some connect and some later request both succeed within three attempts, keeping a connection once made; the calls made are the failed ones before the last |
| Lifecycle.PostStart | aerospike-utility/aku-adm.go:643-666 | one to three `CreateUser` calls, stopping at the first that succeeds or reports the user exists, and never failing |
| Lifecycle.Dispatch | aerospike-utility/aku-adm.go:80-109 | each known operation runs with its credentials, post-start only with security enabled, and any other operation is unknown |
| Lifecycle.Perform | aerospike-utility/aku-adm.go:80-109 | only an unknown operation and a liveness probe that never got an answer are fatal; the drains log in as the helm user or without credentials |
| Lifecycle.CommunityAgrees | aerospike-utility/aku-adm.go:114-156 | the community round sends the same requests as the enterprise cluster-stable loop and its recheck, and finishes exactly when they move on |
| Lifecycle.CommunityRoundSpec | aerospike-utility/aku-adm.go:114-156 | the community round finishes exactly when every node answered that the cluster is stable, and sends only the cluster-stable command |
| Lifecycle.CommunityRound | aerospike-utility/aku-adm.go:114-156 | one round of the community drain; `CommunityRoundSpec` and `CommunityAgrees` state when it finishes and what it sends |

## Left out

- The Aerospike client: client creation, `GetNodes`, `RequestInfo`, connections and
  `CreateUser`. These are oracles. Within one round, identical requests get identical
  replies.
- TLS set-up, certificate reading and `initVars`. They only read files and the environment.
- Sleeps and unbounded retries. Each retry loop of the drains is one round per call. The
  drain is not claimed to terminate: it ends only when the cluster's replies let it.
- `strconv.ParseFloat`. It is a parameter `parse: string -> Option<real>`. Floating-point
  rounding and the float additions of the reducers are modelled on reals.
- `goversion.NewVersion`. Only versions made of dotted decimal segments with an optional
  leading `v` are read. Pre-release and metadata suffixes are treated as malformed.
- `InfoParser.Expect`: a short read at a `bufio` buffer boundary is not modelled. A read
  returns as many bytes as are left, up to the literal's length.
- `InfoParser.Expect`: info replies are treated as one character per byte, that is as
  ASCII. The text is a sequence of characters, and Go's `bufio` counts bytes, so on a
  reply holding a multi-byte UTF-8 character the model's lengths differ from Go's.
- `InfoParser.PeekAndExpect`: the 4096-byte `Peek` limit and the literal's length are
  counted in characters, on the same one-character-per-byte reading.
- `InfoParser.ExpectMismatch`: the one literal character consumed is one byte only on the
  same reading.
- `InfoParser.ReadUntilSpec`: at `io.EOF` the last character is dropped where Go's
  `v[:len(v)-1]` drops the last byte; the two agree on ASCII replies only.
- `Latency.NewTruncatedBuckets`: a truncated bucket list loses its last character where Go
  loses its last byte; the two agree on ASCII replies only.
- JSON decoding of the network-status annotation (`decode`), `net.ParseIP(..).To4()`
  (`ipv4`) and the Kubernetes `List` calls are oracles.
- `Network.ParseCustomNetworkIP`: the partial IP list returned with the "ips list empty"
  and "networks not found" errors is dropped. Only the error is modelled.
- `PodInfo.GetRack`: a pod name without `-` makes the source index out of range and panic.
  The model requires at least one `-` instead.
- `Volumes.InitialisationNeeded`: an entry with no `@` that matches the volume name makes
  the source index out of range and panic. The model requires a readable entry. `initVolumes`
  always passes one, because it filters the list first.
- `Volumes.MountError`: the text of the `os.Stat` error appended to the "does not exist"
  messages is left out.
- `VolumeClean.WipeCheck`: the text of the `os.Stat` error appended to "failed to delete
  file" is left out too. The file lookup is the oracle `fault`, which says only whether a
  lookup failed with something other than "does not exist".
- `PodInfo.AtoiError`: Go quotes the rejected text with `strconv.Quote`. The model shows
  it between plain quotes, which agrees for text with no quote, backslash or unprintable
  character, such as the parts of a pod name.
- Running `dd`, `blkdiscard` and `find`, the worker pool and its goroutines, and
  `wg.Wait`. The model returns the command lines (`Volumes.InitJob`, `Volumes.WipeJob`),
  and a started job counts as done.
- `getNamespaceVolumePaths`. The namespace device and file paths come in as lists.
- `getImageVersion`. It is the oracle `major`.
- `getPVCUid`. It is the oracle `uid`.
- `updateStatus`, `getNodeMetadata` and `getEndpoints`. `VolumeManage.ManageVolumes`
  returns the metadata the status patch would carry.
- `Volumes.NamePart` is defined directly as the text before the first `@`.
  `Volumes.NamePartSplit` proves it equal to the first piece of `strings.Split`.
- `config.go`, `peers.go`, `utils.go` (top level), `init.go`, `main.go`, `common-env.go`
  and `refresh-cmap-restart-asd.go` are not part of this model.
- `Network.GetPorts`: ports are unbounded integers, not `int32`.
- `Latency.GetOpsPerSecLegacy`: its contract states only a nil error and 0 for an empty
  response. The sums are stated by `Latency.LegacySumsSections`, for responses made of
  well-formed sections. Arbitrary malformed text is covered only by the skip and stop
  lemmas.
- `Latency.GetOpsPerSecNew`: its contract states only a nil error and 0 for an empty
  response. The sums are stated by `Latency.NewSumsSections`, for responses made of
  well-formed sections.
- `DrainTrace.NoQuiesceAfterGuard`: it does not state that a repeated pre-stop skips
  quiesce and recluster, because the code does not skip them.
