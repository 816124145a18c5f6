# Layer diffs, layer archives and rooted extraction

This project models the part of go-archive that compares directory trees,
writes the differences as layers in the whiteout format of the OCI Image Format
Specification (section "Image Layer Filesystem Changeset"), and applies layers
and archives below an extraction root.

A file system is a value `Trees.Tree`: names (paths below the root) lead to
inode numbers, inode numbers lead to inodes, and two names may lead to one
inode.  Kinds include the bytes of regular files and the targets of symbolic
links.  The operations of `os.Root` are functions on such trees (`RootFs`);
extraction is specified by functions (`Extract`) and carried out by methods on a
mutable `Unpack.Root`.  The tree of `FileInfo` nodes that the comparison walks,
the tar writer with its memory of hard links, the walker over two trees and the
change list are classes or loops, as in the source.

Four results tie the parts together.

- `RoundTrip.DiffRoundTrip`, `RoundTrip.Synchronize`: the diff of two trees,
  exported and applied to the older one, leaves nothing for a second diff to
  report, exactly if every reported file is one that an archive can carry (no
  socket, no revision 3 capability, a settable time, no directory that has to
  lose a capability and is not made anew), no exported file has a name with the whiteout prefix
  `.wh.`, and the whiteouts of the deleted names mean what they should.
- `Overlay.OverlayMerges`, `Overlay.CommitOverlay`: the archive of an overlay
  upper directory, applied to any lower tree, is the overlay merge of the lower
  tree and the upper one without its sockets, exactly if the whiteouts mean what
  they should; it is the merge with all of the upper tree exactly if besides the
  lower tree has the same sockets.  Files with the whiteout prefix are lost.
- `TreeCopy.CopyRoundTrips`, `TreeCopy.CopyTree`: the archive of a tree without a
  whiteout format, unpacked into an empty directory, is the tree again, but for
  its sockets, whatever the names are.  In overlay format it is exactly if no
  file has the whiteout prefix and no two whiteouts collide.
- `Walker.ChangesDirs`: the walker that prunes equal inodes reports exactly the
  changes of the complete trees.

The first two rest on `LayerTheorem.LayerApplies`: a well-formed layer applies to
any tree, and the names, inodes, bytes and metadata after it are determined by
the sets of paths that it puts, deletes and clears.  `Preservation`, `Untar`,
`DirTimes` and `WhiteoutNames` hold for arbitrary entries.

The whiteout prefix needs a remark.  An archive cannot tell a file with that
prefix from a whiteout, so such a file is lost.  Deleting one is different: the
whiteout of `d/.wh.x` deletes `d/.wh.x`.  There are two exceptions in layers
(`Layers.Effective`).  The whiteout of `.wh..opq` is the opaque marker of its
directory and sweeps away what the layer does not bring; the whiteout of another
prefixed name at the root is taken for metadata and skipped.
`RoundTrip.DeletionsAreMeant` and `Overlay.WhiteoutsHold` say when this makes no
difference.  In the overlay format the first exception applies as well, and the
entry for a whiteout first removes what has its own name, so the whiteout of `x`
destroys one of `.wh.x` that was made before (`TreeCopy.WhiteoutsComeBack`).
`RoundTrip.FailingDiffs`, `Overlay.FailingUppers` and `TreeCopy.FailingCopies` have
inputs for each case.

The equivalences suppose that files with the prefix are no directories and, in the
older or lower tree, no files of the same type and size (or contents) have their
names.  With a prefixed directory the code may happen to be right, because
entries inside it bring it back as an implied directory, and a prefixed file whose
metadata alone has changed may be repaired through a hard link; nothing is claimed
for such trees beyond `WhiteoutNames.LayersMakeNoWhiteoutFiles`.

Files, from the ground up: `Names`, `Trees`, `Errors`, `Headers`; `Resolver`,
`RootFs`; `Extract`, `Preservation`, `Sweeping`, `Plain`, `Unpack`, `Untar`;
`DirTimes`, `WhiteoutNames`; `Layers`, `LayerTheorem`; `Changes`, `FileInfos`,
`Walker`, `Collect`; `Export`, `RoundTrip`, `Tar`, `Overlay`, `TreeCopy`; `Rebase`.
Three modules say what the specifying functions mean without using them:
`PathLaws`, `Implied` and, with `Cleaning`, `Refusals`.

## Model

| member | source | states |
|---|---|---|
| Resolver.ResolveFSRootPath | rootpath.go:45-103 | On every graph of files and links, cyclic ones included, the worklist loop gives the path, the flags and the error of the recursive chroot-style resolution, and it takes at most as many turns as the path has components plus 255 times the longest link target. |
| Resolver.TakeComponent | rootpath.go:50-100 | One turn of the loop: putting the target of a link on the worklist is resolving it completely before what follows the link. |
| Resolver.ResolutionIsCompositional | rootpath.go:97-99 | Resolving p/q is resolving q from where p ended: links in p are expanded before a leading ".." of q is looked at, and missing components of p may be left again. |
| Resolver.ResolveIsIdempotent | rootpath.go:51-102 | A result has only ordinary names, no link at any prefix, no file above its end, and resolving it again returns it with both flags clear. |
| Resolver.EscapeFlagsAreExact | rootpath.go:56-96 | On success both flags are clear iff a resolver that fails on leaving the root succeeds, then with the same path; otherwise the flags name the escape at which that one fails first. |
| Resolver.WalkRefines | archive.go:486-508 | What os.Root reaches, the chroot-like resolver reaches too; where os.Root stops at an escape, the flags name that escape. |
| PathLaws.ResolutionObeys | rootpath.go:45-103 | The resolver, chroot-like or confined and with any number of links left, obeys laws on paths: a resolved path stays as it is; behind a directory, "" and "." do nothing, ".." goes to its parent, a relative link continues with its target in that directory and an absolute one at the root, each for one link of the budget; files with something behind them, unreadable names and, where they are not kept, missing names are errors. |
| PathLaws.LawsDetermine | rootpath.go:45-103 | Two functions that obey these laws agree on every path of every graph, so the laws leave nothing open. |
| PathLaws.BehindAnyPath | rootpath.go:56-100 | Behind any path that leads to a place that may be entered, ".." leads to the parent of that place, and a directory or a missing name is appended to it. |
| RootFs.ResolveArchivePath | archive.go:480-528 | The returned path is made of ordinary names and keeps the last component of the name. |
| RootFs.ResolveHardlinkTarget | archive.go:532-550 | An accepted target is a non-empty path of ordinary names. |
| RootFs.ArchivePathIsChrooted | archive.go:480-528 | Both branches mean one place: whenever os.Root can locate the returned path, it is the last component in the directory that the chroot-like resolution of the parent gives. |
| RootFs.RefusalIsFirstRelativeEscape | archive.go:506-508 | An entry is refused as an escape iff the first escape on the way to its parent is a relative one. |
| Implied.RelativeLinkPlace | archive.go:480-499 | An entry behind a relative link to a directory is located in that directory. |
| Implied.AbsoluteLinkPlace | archive.go:500-528 | An entry behind an absolute link to a directory is located in that directory below the root, with no directory to make. |
| Names.EntryNameReadsBack | archive.go:334-342 | A name written for a path, with or without the slash of a directory, is cleaned back to that path. |
| Names.AncestorsSortFirst | changes.go:58-58 | Compared as printed strings, a directory sorts before everything below it. |
| Names.LessIsLexical | changes.go:58-58 | One string is less than another iff it is a proper prefix or smaller at the first difference. |
| Cleaning.CleanedDepth | archive.go:1031-1037 | The ".." that a cleaned name keeps are as many as the name ever leads above its start, and the other components are what it leads down from there. |
| Cleaning.CleaningLaws | archive.go:1031-1037 | Wherever they stand, "", "." and a name with ".." behind it can be left out. |
| Changes.AncestorsAreReported | changes.go:300-312 | Every non-root ancestor of a reported path is reported, as added or modified, and is a directory of the newer tree. |
| Changes.TopmostIsReported | changes.go:255-298 | A path that has gone lies at or under a reported deletion, or under a reported path that is no directory any more. |
| Changes.NothingReported | changes_unix.go:11-31 | Nothing is reported iff the same names lead to nodes that do not differ. |
| Changes.WhatIsCompared | changes_unix.go:11-31 | Nothing is reported iff the same names lead to files that agree in type, permissions, owner, capabilities and device number and, unless they are directories, in size and time up to lost nanoseconds; a file is modified iff it does not agree in these. |
| Changes.DirectoryIsReported | changes.go:264-312 | A directory is modified iff it does not agree in these or something below it is reported. |
| FileInfos.ChangeList.Insert | changes.go:309-311 | Growing, shifting the overlapping copy and overwriting inserts the change at the index and keeps everything else in order. |
| FileInfos.PathOf | changes.go:234-240 | Following parent pointers gives the path that the node stands for. |
| FileInfos.LookUp | changes.go:214-232 | Gives the node of a path of the tree, and null for any other path. |
| FileInfos.AddChanges | changes.go:242-313 | Appends the changes at and below a node, each once, directories before their contents, and without the change that the caller has recorded; only nodes below are marked. |
| FileInfos.CompareChildren | changes.go:258-298 | For any order in which the two maps are iterated, the two loops append exactly the changes strictly below the node. |
| FileInfos.RecordOwnChange | changes.go:264-283 | A child is recorded as modified and marked iff its stat or its capability differs from that of its counterpart. |
| FileInfos.RecordDirectory | changes.go:300-312 | An unmarked non-root directory is inserted before the changes inside it iff there are any. |
| FileInfos.ReportDeleted | changes.go:291-298 | What is left of the older directory is appended as deletions. |
| FileInfos.ChangesOf | changes.go:316-322 | On unmarked trees the list has exactly the reported changes: topmost deletions below surviving directories, additions, differing common paths and directories with changes inside; no path twice, ancestors first. |
| Walker.MergeNames | changes_linux.go:126-157 | Merging two sorted listings gives, in order, each name of either listing once, except the names that both list with one inode on one device. |
| Walker.ReadDirNames | changes_linux.go:205-247 | A sorted listing of all entries of a directory, with their inodes. |
| Walker.WalkChunk | changes_linux.go:62-80 | Registers one file below the node of its parent; the parent is always found, so the error is never returned. |
| Walker.TreeWalker.Register | changes_linux.go:87-95 | Registers a path in each tree that has it. |
| Walker.TreeWalker.NamesBelow | changes_linux.go:97-157 | The names to visit are the entries of either directory that are not pruned. |
| Walker.TreeWalker.Visit | changes_linux.go:84-187 | Registers in both trees exactly the names at and below the path that have no pruned ancestor below it. |
| Walker.CollectFileInfoForChanges | changes_linux.go:36-58 | Both node trees stand for the trees restricted to the names that were not pruned. |
| Walker.FastRefinesSimple | changes_linux.go:36-187 | Under the same assumption the pruned trees have the same reported changes as the complete ones. |
| Walker.ChangesDirs | changes.go:335-351 | With the pruning walker the list has exactly the changes between the complete trees, in order and without duplicates. |
| Walker.CollectUnder | changes_other.go:41-90 | The walk registers every name at and below a path, each below its parent. |
| Walker.CollectFileInfo | changes_other.go:38-95 | The simple collector gives nodes for the complete tree and never fails for want of a parent. |
| Walker.ChangesDirsComplete | changes_other.go:13-36 | With the simple collector the list has exactly the same changes. |
| Collect.DeletedIsSibling | changes.go:90-100 | A whiteout whose name is that of a file deletes the file beside it. |
| Collect.OddWhiteoutDeletes | changes.go:94-96 | A whiteout with the remainder "", "." or ".." deletes its own directory or the one above. |
| Collect.Inspect | changes.go:132-176 | The loop over the parent layers judges an entry by the topmost layer that has it. |
| Collect.CollectChanges | changes.go:107-201 | For any walk with parents first, the list is the concatenation of what each entry appends: its own change, before it the unchanged directory in which it is the first to add or delete something. No path is listed twice except as deleted. It is aborted iff the topmost parent layer that has an entry cannot tell about it. A file that is no whiteout is listed as added iff no parent layer has it, and as modified iff the topmost one that has it does not have a directory like it (of the same size, permissions and time), or something was added to it or deleted in it; deletions are those of the whiteouts. |
| Collect.ListIsMeant | changes.go:132-191 | What the list says about every entry, on the layers and the tree. |
| Collect.ListedExactly | changes.go:182-194 | After any number of entries the listed files and directories are those with a change of their own and the unchanged ones in which something was added or deleted. |
| Collect.ParentsAreListed | changes.go:178-191 | For every addition or deletion of every walk: if the entry is no whiteout, or a whiteout of a name, its directory is listed before it iff that directory is not itself taken for a whiteout; if it is an odd whiteout, which deletes a directory, the parent of that directory is listed before it iff it has a change of its own or something was added to it or deleted from it earlier in the walk. |
| Collect.OddWhiteoutFails | changes.go:94-96 | A file /a/b/.wh. over unchanged directories: /a/b is deleted without /a being listed. |
| Export.TarAppender.AddTarFile | archive.go:345-453 | Writes nothing for a socket, a whiteout for an overlay whiteout, otherwise the file, as a link iff its inode was written before, with the marker of an opaque directory right behind its header; the memory of hard links stays right. |
| Layers.RevisionTwo | archive.go:277-301 | A capability of revision 2 is archived as it is; of one of revision 3 the first 20 bytes remain, with revision 2. |
| Layers.WholeSeconds | archive.go:261-273 | Headers have whole seconds. |
| Layers.DirectoriesEndInSlash | archive.go:334-342 | The names of directories, and of no other files, end in a slash. |
| Export.LinkCount | archive.go:369-385 | A file is looked up in the memory of hard links iff its inode has more than one name. |
| Export.TarAppender.CheckHardlink | archive.go:371-385 | The remembered name is that of the file that was written for the same inode. |
| Export.TarAppender.WriteWhiteout | archive_linux.go:55-63 | The renamed device is an entry that deletes the name. |
| Export.TarAppender.WriteMarker | archive_linux.go:65-95 | The marker follows iff the directory is opaque. |
| Export.TarAppender.WriteDeletion | changes.go:397-411 | The exported whiteout is an entry that deletes the path. |
| Export.WrittenIsClosed | archive.go:371-385 | Every link entry that addTarFile has written, also with overlay renaming, names an earlier entry that is no link and has the same inode; both exporters pass this on. |
| RoundTrip.SortChanges | changes.go:390-390 | The result is sorted by printed path and a permutation of the list. |
| RoundTrip.SortedIsParentsFirst | changes.go:55-60 | In a list sorted by printed path, an ancestor comes before what is below it. |
| RoundTrip.ExportChanges | changes.go:385-430 | From any list of the diff of any two trees, in any order, the layer carries exactly the diff, parents first, in the order of printed paths; each link names an earlier file of its inode. |
| RoundTrip.DiffRoundTrip | changes.go:242-430 | If no exported file has a prefixed name, the layer applies, and a second diff, in either direction, is empty iff every reported file can be carried and the deletions mean what they should: nothing unreported is below a directory in which `.wh..opq` is deleted, and if another prefixed name is deleted at the root, so is `.wh..opq`. A directory that loses its capabilities is carried iff it is swept away before its entry is applied. Where exported files with a prefixed name are no directories and new or of another type or size, the layer applies and leaves nothing iff all three conditions hold. |
| RoundTrip.PatchedLooksLikeNewer | changes.go:242-430 | Then the patched tree has the names of the newer tree, with files that agree in type, size, permissions, owner, capabilities, device number and time. |
| RoundTrip.AnewIsSweptFirst | diff.go:116-176 | In the order of the export, a file is put where its place has been swept iff a deleted `.wh..opq` beside it or beside a directory above it sorts before it. |
| RoundTrip.PrefixedNamesAreLost | diff.go:116-164 | No layer whatever makes such a prefixed file. |
| RoundTrip.PatchedContents | diff.go:165-217 | Whatever is deleted: reported files have their bytes and share inodes exactly as in the newer tree; names that were not reported keep their old inode. |
| RoundTrip.WhiteoutNamesAreLost | diff.go:116-164 | An entry whose name begins with the whiteout prefix does not come to exist under that name. |
| RoundTrip.FailingDiffs | diff.go:76-164 | Three inputs on which the second diff is not empty: a new file `.wh.x`, a deleted one at the root, and a deleted `.wh..opq` beside a file that has not changed. |
| RoundTrip.Synchronize | changes.go:333-430 | Comparing with the pruning walker, exporting, applying and comparing completely, on a mutable root: the second list is empty under exactly the conditions of the round trip. |
| Tar.WalkDir | archive.go:874-983 | With or without the overlay format the walk writes every entry below a directory, whatever its name, each directory before its entries, the entries in the order of their names, an opaque marker before them. |
| Tar.TarTree | archive.go:811-983 | The archive of any tree puts its files except sockets; in overlay format it deletes the whiteouts instead and marks the opaque directories; it is in the order of the walk, and each link names an earlier file of its inode. |
| Overlay.OverlayMerges | archive_linux.go:54-95 | If no file has a prefixed name, the archive applies to any lower tree, keeps the hard links of the upper tree and shares the inodes of its files with nothing else; it gives the merge with the upper tree without its sockets (a device 0:0 hides, an opaque directory hides what is below it, directories merge, anything else replaces) iff the whiteouts hold: beside one for `.wh..opq` the mount shows nothing of the lower tree, and one for another prefixed name at the root hides nothing, or there is one for `.wh..opq` at the root. It is the merge with the whole upper tree iff besides every socket is seen in the lower tree with the same metadata. If files with a prefixed name are no directories and the lower tree has no such files there, it is the merge iff all three conditions hold. |
| Overlay.SocketsDecide | archive.go:345-360 | A merge without the sockets is the merge iff the lower tree has the same sockets where they are seen. |
| Overlay.SocketIsLost | archive.go:345-360 | A socket that the lower tree does not have is shown by the mount and missing from the result. |
| Overlay.PrefixedFilesAreLost | diff.go:116-164 | No layer makes the merge with an upper tree in which a file is prefixed. |
| Overlay.FailingUppers | archive_linux.go:54-95 | Three inputs on which the result is not the merge: an upper directory with one socket, one with one file `.wh.x`, and one with a whiteout for `.wh.x` over such a file. |
| Overlay.CommitOverlay | diff.go:22-227 | The same from end to end on a mutable root, for any upper directory. |
| TreeCopy.WhiteoutIsRead | archive_linux.go:119-159 | A whiteout entry creates a device 0:0 at the hidden name, prefixed or not, in a directory, where nothing is; only the entry for `.wh..opq` is read otherwise. |
| TreeCopy.OpaqueIsRead | archive_linux.go:105-117 | The marker makes its directory opaque and changes nothing else. |
| TreeCopy.WhiteoutEntryRestores | archive.go:1064-1110 | One whiteout entry: a whiteout that has the name of the entry is removed, then the hidden name becomes a whiteout, or the directory opaque; it fails only where a directory entry must not replace that whiteout. |
| TreeCopy.EntriesRestore | archive.go:1010-1122 | After any part of an archive, in either format, an empty destination holds exactly the files, whiteouts and opaque directories that were read back. |
| TreeCopy.ReadBackIsWhole | archive_linux.go:97-160 | Of an overlay archive all whiteouts are read back iff none is for `.wh..opq` and, where there are whiteouts for x and `.wh.x`, x sorts before `.wh.x`. |
| TreeCopy.CopyRoundTrips | archive.go:994-1131 | Unpacking the archive of a tree into an empty directory in the same format restores its names except sockets, its files, hard links and times as far as headers carry them: without a whiteout format always, prefixed names included and with devices 0:0 as devices; in overlay format with exactly its whiteouts and opaque directories, iff no file has a prefixed name and all whiteouts are read back, provided that files with a prefixed name are no directories. |
| TreeCopy.FailingCopies | archive_linux.go:97-160 | Three inputs on which the overlay archive gives no copy: a file `.wh.x`, a whiteout for `.wh..opq`, and whiteouts for `x` and `.wh.x`. |
| TreeCopy.CopyShowsTheSame | archive_linux.go:97-160 | Over any lower tree the copy shows the same names as the original without its sockets. |
| TreeCopy.CopyTree | archive.go:811-1131 | The same from end to end on a mutable root, for any tree and either format. |
| Layers.ShapeIsClosed | diff.go:44-218 | In a layer in which directories come first, whatever is put, deleted or cleared stands in a directory that the layer puts. |
| LayerTheorem.PutStep | diff.go:165-217 | One file entry, new, merged or linked, keeps the invariant between the layer and the tree. |
| LayerTheorem.DelStep | diff.go:158-164 | One plain whiteout keeps it, also that of a prefixed name inside a directory. |
| LayerTheorem.OpqStep | diff.go:116-157 | One opaque whiteout keeps it: only what the layer has put survives. |
| LayerTheorem.WhiteoutStep | diff.go:76-164 | The whiteout of any name keeps it for what it means: the opaque marker if the name is `.wh..opq`, nothing if the name is another prefixed one at the root, and otherwise a deletion. |
| LayerTheorem.EntriesBuild | diff.go:44-218 | After any part of a well-formed layer the tree is the one that the invariant describes, directories without capabilities in their headers have those of the directory that they met, and the memory of written paths and directory times is exact. |
| LayerTheorem.LayerApplies | diff.go:22-227 | Any well-formed layer (directories first, each path once, no prefixed name put), with any header times and capabilities and with whiteouts of any names, applies to any tree; names, inodes, bytes, metadata, hard links and directory times after it are settled by what the layer puts, deletes and clears; inodes of the old tree keep their contents. |
| LayerTheorem.OrderDoesNotMatter | diff.go:116-217 | Two well-formed layers that put, delete and clear the same give trees that cannot be told apart but for the capabilities of directories, with the same times of the directories they put, so an opaque marker may stand anywhere after its directory. |
| Layers.ShapeIsWellFormed | archive.go:261-273 | What the exporters write for a tree is a well-formed layer of the tree with whole seconds and revision 2 capabilities, if no file has a prefixed name. |
| Preservation.MakeRoomMakesRoom | diff.go:166-176 | Removing the target never makes its path lead to something else that exists. |
| Preservation.CreateTarFileIsSafe | archive.go:555-744 | Where there is room, extracting a file changes the bytes of no existing inode, also if it fails. |
| Preservation.ApplyEntryIsSafe | diff.go:55-217 | No entry of a layer, well formed or not, changes the bytes of an existing inode or breaks the tree. |
| Preservation.LayersCopyOnWrite | diff.go:22-227 | The same for whole layers, succeeding or failing. |
| Sweeping.Survivors | diff.go:129-157 | After an opaque whiteout a name below the directory is left iff it and all its ancestors below the directory were written by the layer; everything outside is left, with its inode and its metadata. |
| Plain.ReplacePlain | diff.go:166-216 | An entry whose parent is a directory of the tree replaces what is there by a new inode with the kind and the metadata of the header. |
| Plain.MergePlain | diff.go:166-216 | A directory that meets a directory keeps its inode and its entries and takes the metadata. |
| Plain.LinkPlain | archive.go:634-637 | A link entry gives the place the inode of its target and updates its metadata. |
| Unpack.Root.CreateImpliedDirectories | archive.go:1163-1231 | Makes the missing directories on the way, follows those that exist, and stops with the error and the tree of the specification. |
| Implied.ImpliedExactly | archive.go:1163-1231 | Where no link is on the way, it succeeds iff what exists on the way is directories; then every missing one is a new directory with mode 0755 and owner 0:0, the parent is a directory, and all other names keep their inodes; otherwise nothing has changed. |
| Implied.ImpliedSucceeds | archive.go:480-528 | On a path that resolveArchivePath has returned it always succeeds. |
| Implied.FileArrives | archive.go:1047-1121 | An archive entry for a file below directories that do not exist: they are made, and the file is at its place with the kind and metadata of the header. |
| Implied.LayerFileArrives | diff.go:103-217 | The same for an entry of a layer. |
| Implied.FileStopsEntry | archive.go:1047-1096 | A file on the way is an error, and nothing is done. |
| Implied.FileStopsMaking | archive.go:1200-1231 | A file where a directory should be made stops the loop with an error. |
| Implied.RemovesNothing | diff.go:158-164 | Removing what does not exist does nothing; below a file it is an error. |
| Implied.OneFileArchive | archive.go:994-1131 | An archive or a layer with one file, however deep, unpacked into any tree. |
| Unpack.Root.ExtractFile | archive.go:555-744 | Target, node, ownership, capability, mode and times in this order, stopping where the specification stops. |
| Unpack.Root.RemoveUnlisted | diff.go:133-154 | The walk, in any order of entries and while it removes, leaves exactly the sweep of the directory. |
| Unpack.Root.Whiteout | diff.go:116-164 | The two kinds of whiteouts, with their errors. |
| Unpack.Root.UnpackEntry | diff.go:55-217 | One turn of the loop refines the specification of an entry. |
| Unpack.Root.RestoreTimes | diff.go:220-224 | Sets the recorded times in order, up to the first error. |
| Unpack.Root.UnpackLayer | diff.go:22-227 | The loop refines the specification of a layer, returns the size of all contents, and 0 on failure. |
| Unpack.ContentSizeIsSum | diff.go:44-54 | The size of two layers together is the sum of their sizes, and that of one entry is the length of its contents. |
| Unpack.Root.ConvertWhiteout | archive_linux.go:97-160 | Refines the specification of reading a whiteout: which entries are still to be written and what was done for the others. |
| Unpack.Root.UntarOne | archive.go:1010-1121 | One turn of the loop of Unpack refines the specification of an archive entry. |
| Unpack.Root.Untar | archive.go:994-1131 | The loop and the final times refine the specification of an archive. |
| Untar.RoomAfterImplied | archive.go:1064-1096 | A target that was removed stays free while the directories on the way to it are made afterwards. |
| Untar.UntarEntryIsSafe | archive.go:1024-1121 | No archive entry, in either whiteout format, changes the bytes of an existing inode or breaks the tree. |
| Refusals.OutsideIsRefused | archive.go:1020-1041 | An entry, of an archive or a layer, is refused with nothing done if at some component its name has gone up more often than down; names that lead nowhere and, in archives, global headers are skipped. |
| Refusals.OutsideTargetIsRefused | archive.go:532-550 | A link target is refused if it leads outside or nowhere; leading slashes do not matter. |
| Refusals.LinkIsRefused | archive.go:634-637 | A link entry with such a target creates nothing. |
| Refusals.AufsTargets | diff.go:183-195 | A link target is in the directory of AUFS iff its first name begins with `.wh..wh.plnk`; a leading slash or a way outside makes it none. |
| Refusals.AufsLinkIsRefused | diff.go:183-195 | A link entry into that directory is an error once its place has been cleared. |
| Refusals.OtherTypes | archive.go:601-660 | Unknown types and device numbers out of range are refused; a global header makes nothing. |
| Refusals.KindsAreKept | archive.go:1066-1077 | With NoOverwriteDirNonDir a file and a directory do not replace each other: the entry is refused and nothing is done. |
| Refusals.OddWhiteoutRemoves | diff.go:158-164 | In a layer a whiteout with the remainder "" or "." removes its own directory, one with ".." the directory above. |
| Refusals.OddWhiteoutAtRoot | diff.go:158-164 | At the root such whiteouts are errors, as an escape for "..". |
| Refusals.OddWhiteoutIsRefused | archive_linux.go:97-103 | In overlay format such a whiteout is refused. |
| Refusals.WhiteoutOverFileIsRefused | archive_linux.go:119-135 | In overlay format so is a whiteout for a name that exists. |
| Untar.ArchivesCopyOnWrite | archive.go:994-1131 | The same for whole archives, succeeding or failing. |
| Untar.DirTimesAreDeferred | archive.go:1124-1129 | Setting a list of recorded times succeeds iff every recorded path still leads somewhere; then every inode has the time recorded last for it, and nothing else has changed. |
| DirTimes.UntarRecords | archive.go:1114-1121 | What Unpack records while it extracts any archive are the places and bounded times of its directory entries, in order. |
| Trees.SettableTimes | time.go:13-41 | A time is kept iff its nanoseconds since the epoch are from 0 to 2^63-1; any other one becomes the epoch. |
| DirTimes.LayerRecords | diff.go:205-213 | The same for UnpackLayer and any layer. |
| DirTimes.ArchivePathAt | archive.go:1060-1062 | The place of an entry is looked up in the tree that the earlier entries have left. |
| DirTimes.LayerPathAt | diff.go:107-111 | The same for the entries of a layer. |
| DirTimes.PlainDirPath | archive.go:491-493 | A directory entry whose parent is a directory of that tree has the place that its name says. |
| DirTimes.ArchiveTimes | archive.go:1114-1129 | For any archive whose entries can be extracted: setting the times succeeds iff each directory entry still leads somewhere, and then each inode has the bounded time of the last directory entry that leads to it, and is otherwise as extraction has left it. |
| DirTimes.LayerTimes | diff.go:205-224 | The same for any layer. |
| DirTimes.WrittenDirectoryHasItsTime | archive.go:1114-1129 | A directory that an entry has written and that is still at its place has the bounded time of the last header written there, whatever was created inside it afterwards. |
| DirTimes.LayerDirectoryHasItsTime | diff.go:205-224 | The same for layers. |
| WhiteoutNames.LayersMakeNoWhiteoutFiles | diff.go:116-217 | After any layer a prefixed name is an old one with its old inode, or that of a directory. |
| WhiteoutNames.ArchivesMakeNoWhiteoutFiles | archive.go:994-1131 | After any archive that is unpacked in overlay format the same holds, but for whiteouts. |
| Rebase.RebaseArchiveEntries | copy.go:351-408 | Each name and each link target is rebased, nothing else changes, and closed hard links stay closed. |
| Rebase.BaseIsReplaced | copy.go:326-347 | The old base becomes the new one, what is behind the base and a slash moves with it, every other name is unchanged; slashes at the end of the bases do not matter. |
| Rebase.RootIsReplaced | copy.go:330-339 | From the archive root every name is put below the new base, without its leading slashes. |
| Rebase.RebasingBack | copy.go:326-347 | Rebasing a name and rebasing it back gives the name iff it is under the old base or not under the new one; at the archive root iff the slashes come back as well. |
| Rebase.ArchiveComesBack | copy.go:326-383 | An archive comes back iff all its names and link targets do. |
| Rebase.CollisionsAreExact | copy.go:340-346 | Two names become equal iff one of them is where the other is moved to. |
| Rebase.RebasingKeepsMeaning | copy.go:379-383 | Without such collisions every link entry means the same entry as before. |

## Left out

- Extract.ApplyEntry: the temporary copies of files below `.wh..wh.plnk` (diff.go:76-98, diff.go:183-195) are not kept, so every hard link into that directory is an invalid AUFS hard link.
- Preservation.ApplyEntryIsSafe: the same; the temporary copies are new inodes.
- Preservation.LayersCopyOnWrite: the same.
- Unpack.Root.UnpackEntry: the same.
- Unpack.Root.UnpackLayer: the same.
- Extract.UntarEntry: exclude patterns are empty and names are not checked for Windows.
- Export.TarAppender.AddTarFile: the number of links is read off the names of the tree, one device is archived at a time, and files do not change or vanish while they are read.
- Layers.CapRecord: an attribute of 1 to 3 bytes or an empty one, on which the code panics, is left as it is.
- Tar.WalkDir: include and exclude patterns, renamed bases and the source directory's own entry (archive.go:866-960) are not modelled; neither is an opaque attribute on the upper root, which is not archived by default.
- LayerTheorem.WhiteoutStep: the temporary copy that is made for the whiteout of a name `.wh.plnk` at the root (diff.go:82-98) and removed at the end is not kept.
- RootFs.WriteFile: a last component that is a link or a special file is an error; no caller reaches it, because the target is removed first.
- RootFs.Lchown: clearing of set-user-ID bits by the kernel does not show, because the mode is set afterwards.
- RoundTrip.DiffRoundTrip: no claim where an exported file with a prefixed name is a directory or keeps its type and size.
- RoundTrip.Synchronize: the same.
- RoundTrip.PatchedContents: stated for diffs without exported files of a prefixed name, because the layer is well formed only then.
- Overlay.OverlayMerges: no claim where a file of the upper tree with a prefixed name is a directory, or one that the lower tree has there with the same contents.
- Overlay.CommitOverlay: the same.
- TreeCopy.CopyRoundTrips: no claim in overlay format where a directory has a prefixed name.
- TreeCopy.CopyTree: the same.
- Walker.ReadDirNames: directory records are not parsed and a merge of sorted insertions stands for the library sort.
- Walker.ChangesDirs: the assumption that equal inodes on one device mean equal subtrees is the walker's own; it is stated on names, as `SameInodeSameTree`.
- Collect.CollectChanges: what `stat` reports for the parent layers and for directory sizes is a parameter, and so is the order of the walk.
- Identity maps, chown overrides, NoLchown, user namespaces, best-effort attributes and attributes other than security.capability and the overlay opaque attribute: all options have their default.
- Access times, user and group names, and the sizes of directories as differences.
- The limit of links that `os.Root` follows is a constant; only that it is at most 255 is used.
- Errors of single system calls on files that exist, except those that the resolver and the layer comparison tell apart; umask; device number encodings.
- Tar encoding, compression, pipes, goroutines and logging: an archive is a sequence of headers with contents.
- Changes of the destination by others while an archive is extracted.
- Windows, `Archiver`, `CopyInfo`, `ChangesSize`, `ReplaceFileTarWrapper` and the `chrootarchive` package.
