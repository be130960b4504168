# docker-repo-cp, modelled in Dafny

`docker-repo-cp` copies every tag of a source image repository to a destination
repository. It pulls all tags of the source, adds a `destination:tag` reference
for each source reference, pushes the destination, and checks the registry's
push response for error records. Around the whole run, a guard snapshots the
local image tags first and removes every tag the run introduced afterwards.

The repository holds two versions of the same program:

- `src/docker_repo_cp/__init__.py` is the current one.
- `src/docker_repo_cp.py` is the legacy one.

The model keeps both. A legacy variant carries the suffix `Legacy`. Where the
two files agree word for word, one member serves both: `migrate_tags`
(`src/docker_repo_cp.py:65-85` is the same text as
`src/docker_repo_cp/__init__.py:72-92`), the `Image` record and `uri`.

All engine calls are abstract. Tag calls and remove calls are returned as
lists. The local image store is seen only through its listings. JSON decoding
of the push response is an oracle `parse: string -> Option<P>`, and the test
for an `"error"` field is a predicate `hasError: P -> bool`.

| file | module | models |
|---|---|---|
| `wrappers.dfy` | `Wrappers` | `Option`, `Result`, `Outcome` for the raised exceptions |
| `text.dfy` | `Text` | Python's `str.split` / `str.join` on one separator character |
| `image_tags.dfy` | `ImageTags` | `ImageTag`, `uri`, the current and legacy `from_string` |
| `images.dfy` | `Images` | `Image`, `_format_docker_image`, `migrate_tags` |
| `push_logs.dfy` | `PushLogs` | the current and legacy `process_docker_push_logs` |
| `cleanup.dfy` | `Cleanup` | the cleanup of the current and legacy `docker_context` |

Three points where the code's behaviour is easy to misstate:

- The code raises `ValueError` for both a bad reference and a push error record.
  The model keeps the two kinds apart: `ParseError` and `PushError`.
- The current parser gives the input back for every string that has a colon,
  even when the repository holds more colons. The round trip needs no
  "repository has no further colon" condition.
- The guard does not restore the store "exactly as it was". What remains is
  the part of the final listing that was in the snapshot. This equals the
  snapshot only when the block removed nothing, as in a copy.

## Model

| member | source | states |
|---|---|---|
| Text.Split | src/docker_repo_cp/__init__.py:20 | `split` yields at least one piece, and no piece contains the separator |
| Text.SplitCount | src/docker_repo_cp/__init__.py:20-21 | the number of pieces is the number of separators plus one, so `len(split_s) < 2` means "no colon" |
| Text.JoinSplit | src/docker_repo_cp/__init__.py:23-24 | joining the pieces of a split with the separator gives back the original string |
| Text.SplitJoin | src/docker_repo_cp.py:19-22 | splitting a join of separator-free pieces gives the pieces back |
| Text.SplitAround | src/docker_repo_cp/__init__.py:38 | the records before and after a separator are split independently and then concatenated |
| Text.LastSeparatorUnique | src/docker_repo_cp/__init__.py:23 | a string has only one decomposition as `repository:tag` with a colon-free tag |
| ImageTags.FromString | src/docker_repo_cp/__init__.py:19-24 | fails with `InvalidTagName(s)` exactly when `s` has no colon, the empty string included; otherwise `uri` of the result is `s` and the tag is colon-free, so the split is at the last colon |
| ImageTags.FromStringUri | src/docker_repo_cp/__init__.py:19-28 | for any reference whose tag has no colon, parsing its `uri` gives the reference back, even when the repository has colons |
| ImageTags.CurrentAcceptsHostPort | src/docker_repo_cp/__init__.py:20-24 | a repository with a colon, such as `host:5000/app`, is parsed back by the current parser and rejected by the legacy one |
| ImageTags.FromStringLegacy | src/docker_repo_cp.py:18-22 | succeeds exactly when `s` has exactly one colon; then `uri` of the result is `s` and neither part has a colon |
| ImageTags.FromStringLegacyUri | src/docker_repo_cp.py:18-26 | for a reference with no colon in either part, the legacy parser inverts `uri` |
| ImageTags.LegacyAgreesWithCurrent | src/docker_repo_cp.py:18-22 | wherever the legacy parser succeeds, the current parser returns the same reference |
| Images.ParseTags | src/docker_repo_cp/__init__.py:57 | the list comprehension succeeds exactly when every raw reference parses, and then it parses them one for one; otherwise it raises the error of the first reference that fails |
| Images.FormatImage | src/docker_repo_cp/__init__.py:54-59 | the wrapped image keeps the id and handle, and its references print back to the raw ones in order; it fails at the first raw reference without a colon |
| Images.FormatImageLegacy | src/docker_repo_cp.py:47-52 | as above with the legacy parser: every raw reference must have exactly one colon |
| Images.DerivedTags | src/docker_repo_cp/__init__.py:76-86 | there are no more derived references than originals, and each derived reference lies in the destination repository |
| Images.DerivedTagsMembership | src/docker_repo_cp/__init__.py:77-82 | a reference is derived exactly when it is `dst:x` for the tag `x` of an original whose repository starts with `src` |
| Images.DerivedTagsAppend | src/docker_repo_cp.py:69-79 | derivation goes reference by reference, in the order of the originals |
| Images.DerivedTagsSnoc | src/docker_repo_cp/__init__.py:77-86 | one more loop iteration appends `dst:tag` to the derived list when the reference's repository starts with `src`, and appends nothing otherwise |
| Images.MigrateTags | src/docker_repo_cp/__init__.py:72-92 | the result keeps the id and handle, and its tags are the original list followed by exactly the derived references, in the order of the originals; with `apply` there is one engine tag call per derived reference, in the same order and on the same handle; in a dry run there are none |
| Images.MigrateTwiceRepeats | src/docker_repo_cp/__init__.py:88-92 | migrating twice appends the first round's derived references again, since nothing is de-duplicated |
| PushLogs.ScanLines | src/docker_repo_cp/__init__.py:38-46 | the current scan can only fail with a registry error, never with a decode error |
| PushLogs.ScanLinesFirstError | src/docker_repo_cp/__init__.py:38-46 | the scan fails exactly when some record is non-empty, decodes and has an error, and then it raises with the first such record's payload |
| PushLogs.ProcessPushLogsFirstError | src/docker_repo_cp/__init__.py:37-46 | the same for a whole response split at newlines: empty and undecodable records never cause a failure |
| PushLogs.ScanLinesAppendEmpty | src/docker_repo_cp/__init__.py:39 | an empty record at the end does not change the current scan |
| PushLogs.MalformedRecordBetween | src/docker_repo_cp/__init__.py:40-46 | for a status record, a malformed record and an error record, the current check reports the error record; the legacy check fails on the malformed one |
| PushLogs.ScanLinesLegacyFirstHalt | src/docker_repo_cp.py:36-39 | the legacy scan passes exactly when every record decodes without error; otherwise the first record that does not decode or has an error decides the failure |
| PushLogs.ProcessPushLogsLegacyFirstHalt | src/docker_repo_cp.py:35-39 | the same for a whole response: the first undecodable record aborts with a decode error before any later record is examined |
| PushLogs.ScanLinesLegacyPassImpliesPass | src/docker_repo_cp.py:36-38 | record by record, a legacy pass is also a current pass |
| PushLogs.LegacyPassImpliesCurrentPass | src/docker_repo_cp.py:35-39 | every response that the legacy check accepts, the current check accepts too |
| PushLogs.TrailingNewline | src/docker_repo_cp.py:36-37 | a response that ends in a newline always fails the legacy check; the current check's verdict is the same as without that newline |
| Cleanup.NewTags | src/docker_repo_cp/__init__.py:117-122 | the removals for one image are exactly its tags that are not in the snapshot |
| Cleanup.RemovalsExact | src/docker_repo_cp/__init__.py:116-122 | the cleanup loop removes exactly the listed tags not in the snapshot: never a snapshot tag, and no new tag is missed |
| Cleanup.DockerContext | src/docker_repo_cp/__init__.py:107-122 | the cleanup runs whether the block completes or raises, and the outcome is passed on; it removes exactly `after \ before`, leaves `after ∩ before`, and gives back the snapshot when the block only added tags |
| Cleanup.CopyRestoresStore | src/docker_repo_cp/__init__.py:113-122 | a run that only adds images ends with exactly the snapshot's tags, whether it completed or raised |
| Cleanup.DockerContextLegacy | src/docker_repo_cp.py:100-114 | when the block raises, nothing is removed and every listed tag remains; when it completes, the removals and what remains are as in the current guard |
| Cleanup.LegacyLeaksOnRaise | src/docker_repo_cp.py:106-114 | after a raising block, each tag the block added stays under the legacy guard and is removed under the current guard |

## Left out

- `DockerImageProxy.list`, `pull_all` and `list_local_images` are engine calls with no logic of their own. Their listings appear in the model only as the `before`/`after` parameters of the guard and as the raw tags given to `FormatImage`.
- `DockerImageProxy.push_all` is left out. It is an engine push behind the `apply` flag, and it hands the response text to `process_docker_push_logs`, which is modelled.
- `main`, `cli`, the argparse setup, `docker.from_env`, the legacy `__main__` invocation, logging and `typing.cast` are left out. They are glue with no logic of their own.
- Engine semantics are left out: removing an image's last tag deletes the image, `tag` is idempotent, and pushes can be partial. None of this is visible in the code.
- A failing `images.remove` in the middle of the cleanup is left out. In Python it stops the remaining removals, and in the current file it replaces the block's exception. The model assumes every remove call succeeds.
- The removal list follows the listing order. If two listed images carry the same tag, it is removed twice, as in the source. What the engine does with the second call is not modelled.
- Real JSON decoding is not modelled. It is the `parse` oracle, and the test for an `"error"` field is the `hasError` oracle.
- PushLogs.ProcessPushLogs: a record that decodes to a JSON number, `true`, `false` or `null` makes `"error" in payload` raise `TypeError` (`src/docker_repo_cp/__init__.py:45`, `src/docker_repo_cp.py:38`). The model has no such exit: `hasError` is total, so such a record either passes or reports an error.
- Images.MigrateTags: a raising `image.docker_object.tag(...)` (`src/docker_repo_cp/__init__.py:85`) aborts the migration part way, after the earlier tag calls. The model assumes every tag call succeeds and returns all of them.
- The text of the `ValueError` messages is not modelled. Errors carry the offending raw reference, payload or record instead.
- The `Image.docker_object` handle is a type parameter. It is passed through unchanged and is the target of the recorded tag calls.

## Findings

| source | as written | input that shows it | evidently intended | confidence | as-written member | corrected member |
|---|---|---|---|---|---|---|
| src/docker_repo_cp.py:19-22 | `len(split_s) != 2` rejects every reference whose repository contains a colon | `host:5000/app:v1`, or any reference to a registry with a port | split at the last colon, as the current file does | high, not executed | ImageTags.FromStringLegacy, shown by ImageTags.CurrentAcceptsHostPort | ImageTags.FromString, proved by ImageTags.FromStringUri |
| src/docker_repo_cp.py:36-37 | every record is decoded, including the empty one after a final newline | a response ending in `\n`, whose last record is the empty string, which does not decode | skip empty and undecodable records | medium, not executed | PushLogs.ProcessPushLogsLegacy, shown by PushLogs.TrailingNewline | PushLogs.ProcessPushLogs, proved by PushLogs.ProcessPushLogsFirstError |
| src/docker_repo_cp.py:106-114 | the cleanup follows `yield` without `finally`, so it is skipped when the block raises | a push that raises after pulling a tag absent from the snapshot | clean up on every exit | high, not executed | Cleanup.DockerContextLegacy, shown by Cleanup.LegacyLeaksOnRaise | Cleanup.DockerContext, proved by Cleanup.CopyRestoresStore |
