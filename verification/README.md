# Verified model of leapp-repository's upgrade libraries

leapp-repository performs in-place upgrades of RHEL-like systems. Most of it drives external
commands, but some of its libraries contain algorithms that the upgrade relies on. This project
models those algorithms in Dafny and proves properties of them.

* **Overlay mounts** (`MountTable`, `Mounting`, `Leftovers`, `OverlayLayout`, `OverlayGen`,
  `OverlayLeftovers`, `OverlayView`). The mount table, with what is mounted where, is mutable state
  (`Mounting.Os`); creating a directory, mounting, and the code under the innermost `with` may each
  fail. `MountTable.TowerTrace` lists
  every step of nested `with` mounts for a given point of failure, the methods of `Mounting` and
  `OverlayGen` are proved to take exactly those steps, and the theorems are about the steps: what is
  removed, what is unmounted, what the caller's code sees and where it writes to, and which directories are left behind.
  `umount -fl` is a lazy unmount: it detaches the newest mount at its target and everything mounted
  on top of that later.
* **fstab order** (`FstabOrder`): the pairwise detector of overshadowing mount points and the order
  that its report proposes.
* **systemd presets** (`PresetOverrides`, `SystemdPresets`): the join of /etc and /usr preset files,
  which removes from the lists it iterates over, and the table built from the files.
* **Kernel command line** (`ArgOrder`, `KernelCmdline`, `MountSplit`): the printer of grubby
  arguments with a sort that can raise, the commands, the removals requested for the target kernel,
  and the walk up to a mount point.
* **Repository files** (`RepoFiles`), **flattening** (`Breadcrumbs`), **version predicates**
  (`Versions`), **DNF excludes** (`DnfExcludes`), **EFI paths** (`EfiPaths`).

`Strings`, `Numbers`, `Ordering`, `Paths`, `Seqs` and `Wrappers` are shared: Python's `join`, `split`,
`strip`, `replace`, `str` and `int`, string order and `sorted`, and the link between string prefixes
and path components.

## Where the code does less than its documentation says

Each of these is a lemma, with the exact condition under which the code is right.

* `_mount_name` maps `/var/lib` and `/var_lib` to one name; overlays of two such mount points cannot
  be taken down cleanly (`OverlayLayout.NameClashBreaks`). The exact condition for a clean run,
  whatever fails, is `OverlayLayout.OverlayFits` (`OverlayLayout.OverlayUnwindsIff`).
* `_get_overshadowing_mount_points` never reports a mount point spelled with a repeated slash
  (`FstabOrder.CommonPathIff`, `FstabOrder.RepeatedSlashIsMissed`).
* `_join_presets_resolving_overrides` skips the /etc file after a masking one that it removed; if
  that file overrides a /usr file, the /usr file stays in force (`PresetOverrides.JoinIsIntendedIff`,
  `PresetOverrides.NeighbourSurvives`).
* `create_source_overlay` promises that "everything is cleaned" in the end. The directories above
  the scratch directory and above the bind target that `os.makedirs` had to make are not
  (`OverlayLeftovers.NothingIsLeftBehind`, `OverlayLeftovers.MissingParentStays`).
* `format_grubby_args_from_args_set` states that a key cannot be there with and without a value, and
  raises `TypeError` if it is (`KernelCmdline.FormatRaisesIff`). Added arguments cannot cause this
  (`KernelCmdline.CollectedArgsPrint`), undesired ones can, under the exact condition of
  `KernelCmdline.UndesiredArgsPrintIff`.
* A repository file whose last line is empty loses that line when it is rewritten and read again,
  and a quoted URL loses white space at its end; the repositories lose nothing else
  (`RepoFiles.RewriteRoundTrip`, `RepoFiles.TrailingEmptyLineIsLost`,
  `RepoFiles.QuotedSpaceIsLost`).
* `_flattened` merges leaves whose paths have the same parts once keys are split at their dots
  (`Breadcrumbs.NoLeafIsMergedIff`, `Breadcrumbs.DottedKeyMergesLeaves`); the last of them stays.
* The EFI conversions are inverse exactly under the condition of `EfiPaths.ConversionInvertibleIff`.
* `matches_version` is documented to restrict a comparison with major versions to the major part; the
  code only replaces the configured source and target versions by their virtual ones
  (`Versions.CentosSubstitutes`). The two agree exactly under the conditions of
  `Versions.MajorComparisonIff`, `Versions.MajorListAgreesIff` and `Versions.BareMajorsAgreeIff`;
  `Versions.MajorComparisonExample` is an input for which they do not, and other major versions raise
  (`Versions.UnknownMajorRaises`).
* The docstrings of `_are_comparison_operators_used` and `_cmp_versions` describe each other's
  answer; the model follows the code.

## Model

| member | source | states |
|---|---|---|
| MountTable.DetachTakes | repos/system_upgrade/common/libraries/mounting.py:331 | a lazy unmount takes the newest mount at its target and the later mounts inside of it, and leaves all others in order |
| MountTable.EnterClear | repos/system_upgrade/common/libraries/mounting.py:345-360 | entering a mount object whose directories are free of mounts unmounts nothing, removes safely and adds exactly its own mount |
| MountTable.FailedEnterClear | repos/system_upgrade/common/libraries/mounting.py:345-360 | a failure while creating a directory or mounting leaves the mount table as it was |
| MountTable.ExitClear | repos/system_upgrade/common/libraries/mounting.py:362-372 | leaving a mount object whose mount is the newest one takes exactly that mount away |
| MountTable.ReadyUnwinds | repos/system_upgrade/common/libraries/mounting.py:327-372 | if every object of a tower finds its directories free of mounts, then for every point of failure no removal reaches into a mount, the unmounts are the mounts reversed, the table is restored, and the body sees all mounts |
| MountTable.NotReadyBreaks | repos/system_upgrade/common/libraries/mounting.py:327-372 | otherwise the run that reaches the body removes below a mount or misses a mount |
| MountTable.UnwindsIffReady | repos/system_upgrade/common/libraries/mounting.py:327-372 | the two together: an exact condition over all points of failure and all mount tables |
| Leftovers.ParentsAreAncestors | repos/system_upgrade/common/libraries/mounting.py:35-42 | what `os.makedirs` makes on its way to a clean path are its proper ancestors besides the root |
| Leftovers.TowerLeaves | repos/system_upgrade/common/libraries/mounting.py:327-372 | exactly which directories there are after a tower, for every outcome: those of entered objects and all inside them are gone, the directories above them stay, and the object that raised leaves what it made |
| Mounting.MountingBase.Loop | repos/system_upgrade/common/libraries/mounting.py:391-392 | a loop mount mounts its image and needs no directory besides its target |
| Mounting.MountingBase.Bind | repos/system_upgrade/common/libraries/mounting.py:398-399 | a bind mount mounts its source directory and needs no directory besides its target |
| Mounting.MountingBase.Overlay | repos/system_upgrade/common/libraries/mounting.py:419-434 | an overlay of the source is mounted inside its work directory, with `upper` and `work` next to it |
| Mounting.MountingBase.Null | repos/system_upgrade/common/libraries/mounting.py:375-385 | a null mount behaves as one that neither creates nor cleans up |
| Mounting.MountingBase.Cleanup | repos/system_upgrade/common/libraries/mounting.py:327-338 | unmounts the target if it is mounted, then removes the additional directories and the target, in that order |
| Mounting.MountingBase.CreateDirs | repos/system_upgrade/common/libraries/mounting.py:347-351 | creates the directories in order up to the first failure |
| Mounting.MountingBase.Create | repos/system_upgrade/common/libraries/mounting.py:345-360 | cleanup, directories, mount; on an exception exactly the steps before it were taken |
| Mounting.MountingBase.Mount | repos/system_upgrade/common/libraries/mounting.py:340-343 | mounts only if the configuration says so |
| Mounting.MountingBase.Umount | repos/system_upgrade/common/libraries/mounting.py:362-365 | cleans up only if the configuration says so |
| Mounting.MountingBase.Enter | repos/system_upgrade/common/libraries/mounting.py:367-369 | takes the steps of entering, or those of a failed entering |
| Mounting.MountingBase.Exit | repos/system_upgrade/common/libraries/mounting.py:371-372 | takes the steps of leaving |
| Mounting.WithStatement | repos/system_upgrade/common/libraries/mounting.py:367-372 | entering, an inner tower and leaving are the steps of the tower with one more layer, whatever the inner outcome |
| OverlayLayout.TargetShapes | repos/system_upgrade/common/libraries/overlaygen.py:236-241 | the mount directory of a mount point is one path segment below the mounts directory, and only '/' gets the name of the root |
| OverlayLayout.BindShape | repos/system_upgrade/common/libraries/overlaygen.py:341-342 | the bind mount of `m` lies at `m` below the system overlay |
| OverlayLayout.CacheShape | repos/system_upgrade/common/libraries/overlaygen.py:563-566 | the DNF cache mount lies at /var/cache/dnf below the system overlay |
| OverlayLayout.TargetsApart | repos/system_upgrade/common/libraries/overlaygen.py:336-342 | which targets of two mount points contain each other: mount directories when their names agree, bind mounts when the mount points do |
| OverlayLayout.SubReadyIff | repos/system_upgrade/common/libraries/overlaygen.py:327-344 | the tower of `_build_overlay_mount` is ready exactly if names differ, ancestors come first, nothing lies in the DNF cache and the host is vacant there |
| OverlayLayout.OverlayReadyIff | repos/system_upgrade/common/libraries/overlaygen.py:624-633 | the same for the whole tower, with the root overlay and the caller's bind target |
| OverlayLayout.OverlayUnwindsIff | repos/system_upgrade/common/libraries/overlaygen.py:619-635 | every run of the overlay tower, for every failure, is safe and undoes itself exactly, if and only if `OverlayFits` holds |
| OverlayLayout.NameClashBreaks | repos/system_upgrade/common/libraries/overlaygen.py:236-241 | with two mount points of one name some run breaks that promise |
| OverlayLayout.NameSpelling | repos/system_upgrade/common/libraries/overlaygen.py:236-237 | the name of a mount point, character by character |
| OverlayLayout.SameNameIff | repos/system_upgrade/common/libraries/overlaygen.py:236-237 | two mount points have one name exactly if they differ only in '/' against '_' |
| OverlayLayout.NameClashExample | repos/system_upgrade/common/libraries/overlaygen.py:236-237 | /var/lib and /var_lib have one name |
| OverlayLayout.SortedAncestorsFirst | repos/system_upgrade/common/libraries/overlaygen.py:284 | sorting as strings puts every directory before what is inside of it |
| OverlayLayout.OutsideTargetFits | repos/system_upgrade/common/libraries/overlaygen.py:626-629 | a free bind target unrelated to the mounts directory always fits |
| OverlayGen.GetRecommendedLeappFreeSpace | repos/system_upgrade/common/libraries/overlaygen.py:130-163 | the reserve is at least 200 MiB, with a known container size at least what is missing to the minimum container size, and otherwise that minimum |
| OverlayGen.ReserveIsLeast | repos/system_upgrade/common/libraries/overlaygen.py:130-163 | the reserve never grows with the container and is the least value with both bounds, in numbers |
| OverlayGen.ClampImageSize | repos/system_upgrade/common/libraries/overlaygen.py:465-487 | image sizes lie between 130 and 2^20 MiB, are unchanged within the range and at its end outside |
| OverlayGen.CautiousFreeSpec | repos/system_upgrade/common/libraries/overlaygen.py:185-188 | the size offered is the largest whole number of MiB within 95 percent of the free bytes |
| OverlayGen.GetMountpoints | repos/system_upgrade/common/libraries/overlaygen.py:221-233 | exactly the (path, type) pairs of existing directories whose type is none of the nine unsupported ones, each once |
| OverlayGen.GetScratchMountpoint | repos/system_upgrade/common/libraries/overlaygen.py:244-252 | the first hit in reverse order is the innermost listed directory around the path, and no hit means there is none |
| OverlayGen.OwnerByComponents | repos/system_upgrade/common/libraries/overlaygen.py:244-252 | in terms of components: a proper prefix, and the longest one |
| OverlayGen.MountDict.Set | repos/system_upgrade/common/libraries/overlaygen.py:319-322 | a known key keeps its place in the insertion order |
| OverlayGen.MountDict.Pop | repos/system_upgrade/common/libraries/overlaygen.py:336-337 | removes the key and returns its loop mount |
| OverlayGen.SortedMountPoints | repos/system_upgrade/common/libraries/overlaygen.py:284 | the sorted list has exactly the selected mount points |
| OverlayGen.BuildLoopMounts | repos/system_upgrade/common/libraries/overlaygen.py:305-323 | one loop mount per mount point, sorted; every image within bounds; with distinct names each image has its clamped size |
| OverlayGen.CreateMountDiskImage | repos/system_upgrade/common/libraries/overlaygen.py:465-510 | the image is never smaller than 130 MiB |
| OverlayGen.PrepareRequiredMounts | repos/system_upgrade/common/libraries/overlaygen.py:284-323 | the mount table is untouched; on success the scratch size is the free space without the reserve, at least 128 MiB per mount point, and the owner of the scratch directory is the innermost mount point |
| OverlayGen.MountDnfCache | repos/system_upgrade/common/libraries/overlaygen.py:555-567 | the caller's code runs inside one bind mount, with every failure accounted for |
| OverlayGen.BuildOverlayMount | repos/system_upgrade/common/libraries/overlaygen.py:326-344 | popping from the shared dictionary takes exactly the steps of the tower over its keys, sources included, for every outcome |
| OverlayGen.MountSourceOverlay | repos/system_upgrade/common/libraries/overlaygen.py:624-633 | the nested `with` statements take exactly the steps of the whole tower |
| OverlayGen.CleanupScratch | repos/system_upgrade/common/libraries/overlaygen.py:347-381 | unmounts the mounts directory if needed and removes the scratch tree unless it is to be kept |
| OverlayGen.BuildAndRun | repos/system_upgrade/common/libraries/overlaygen.py:621-633 | the part under `try`, including the missing '/' |
| OverlayGen.CreateSourceOverlay | repos/system_upgrade/common/libraries/overlaygen.py:570-635 | every run takes the listed steps, and in the expected situation leaves the mount table as on entry |
| OverlayGen.HostFitsOverlay | repos/system_upgrade/common/libraries/overlaygen.py:284-344 | the expected situation, stated about fstab and host, implies the exact condition |
| OverlayGen.SourceOverlayIsClean | repos/system_upgrade/common/libraries/overlaygen.py:619-635 | in that situation no removal, up to the scratch tree, touches a mount; unmounts are the mounts reversed; the table is restored, whatever fails |
| OverlayView.OverlayShieldsHost | repos/system_upgrade/common/libraries/overlaygen.py:624-633 | for every run that reaches the caller: a path below the system overlay, outside of the DNF cache, is read from the innermost mount point around it and written to the disk image of that mount point, never to the host |
| OverlayView.ImagesApart | repos/system_upgrade/common/libraries/overlaygen.py:288 | different mount points have different images, all in the scratch directory |
| OverlayView.TargetShieldsHost | repos/system_upgrade/common/libraries/overlaygen.py:626-630 | at the bind target of the caller everything is read from "/" and written to its image |
| OverlayView.CacheIsShared | repos/system_upgrade/common/libraries/overlaygen.py:563-567 | the DNF cache below the system overlay is the one of the host |
| OverlayLeftovers.DirectoriesAfterwards | repos/system_upgrade/common/libraries/overlaygen.py:619-635 | exactly which directories there are after any run: none in the scratch directory, none in the bind target unless it was made and not mounted, the others as before, and the parents of both directories |
| OverlayLeftovers.NothingIsLeftBehind | repos/system_upgrade/common/libraries/overlaygen.py:619-635 | a run that reaches the body leaves nothing behind if and only if the parents of the scratch directory and of the bind target were there |
| OverlayLeftovers.MissingParentStays | repos/system_upgrade/common/libraries/overlaygen.py:626-630 | a concrete bind target whose missing parent stays on disk |
| OverlayLeftovers.ExpectedTargetStaysApart | repos/system_upgrade/common/libraries/overlaygen.py:626-629 | the expected situation implies that the bind target does not lie above the scratch directory |
| Paths.AtOrBelowIsPrefix | repos/system_upgrade/common/libraries/overlaygen.py:248-249 | the string test for "inside a directory" is the component-wise prefix test |
| FstabOrder.GetCommonPath | repos/system_upgrade/common/actors/checkfstabmountorder/libraries/checkfstabmountorder.py:18-29 | the loop computes the join of the common leading parts |
| FstabOrder.JoinAllTidy | repos/system_upgrade/common/actors/checkfstabmountorder/libraries/checkfstabmountorder.py:29 | the joined path never has two slashes in a row |
| FstabOrder.CommonPathIff | repos/system_upgrade/common/actors/checkfstabmountorder/libraries/checkfstabmountorder.py:10-29 | for all non-empty strings: the common path equals `q` exactly if `q` is spelled cleanly and is a component-wise ancestor of or equal to `p` |
| FstabOrder.GetOvershadowingMountPoints | repos/system_upgrade/common/actors/checkfstabmountorder/libraries/checkfstabmountorder.py:32-45 | exactly the members of pairs in which the later mount point hides the earlier one |
| FstabOrder.SilentIffAncestorsFirst | repos/system_upgrade/common/actors/checkfstabmountorder/libraries/checkfstabmountorder.py:32-45 | on clean mount points the detector is silent exactly for the orders the overlay tower can handle |
| FstabOrder.RepeatedSlashIsMissed | repos/system_upgrade/common/actors/checkfstabmountorder/libraries/checkfstabmountorder.py:21-29 | a mount point with a repeated slash is never reported as hiding another |
| FstabOrder.NormaliseAllNormalises | repos/system_upgrade/common/actors/checkfstabmountorder/libraries/checkfstabmountorder.py:54-60 | the kept mount points are absolute and end in a slash only if they are '/' |
| FstabOrder.NormaliseAllKeeps | repos/system_upgrade/common/actors/checkfstabmountorder/libraries/checkfstabmountorder.py:54-60 | in order and once each, exactly the entries that are absolute and name something or are "/" are kept, without the slashes at their end |
| FstabOrder.ShadowIsShorter | repos/system_upgrade/common/actors/checkfstabmountorder/libraries/checkfstabmountorder.py:42 | what hides a normalised path is shorter or equal to it |
| FstabOrder.ShortestFirstIsClear | repos/system_upgrade/common/actors/checkfstabmountorder/libraries/checkfstabmountorder.py:69 | distinct normalised mount points by length never hide each other |
| FstabOrder.CheckFstabMountOrder | repos/system_upgrade/common/actors/checkfstabmountorder/libraries/checkfstabmountorder.py:48-95 | reports exactly if the components of some later entry are the first ones of those of an earlier entry, with the duplicates, the affected entries in order and the proposed order |
| FstabOrder.KeepSpec | repos/system_upgrade/common/actors/checkfstabmountorder/libraries/checkfstabmountorder.py:68 | the affected mount points are listed in their order |
| FstabOrder.RepairIsAccepted | repos/system_upgrade/common/actors/checkfstabmountorder/libraries/checkfstabmountorder.py:69 | the proposed order keeps the set of mount points, is ordered by length and is accepted by the same check |
| FstabOrder.EveryEnumerationIsRepaired | repos/system_upgrade/common/actors/checkfstabmountorder/libraries/checkfstabmountorder.py:69 | whatever order the set is enumerated in |
| PresetOverrides.PresetLists.Join | repos/system_upgrade/common/libraries/systemd.py:109-128 | the two loops over shrinking lists, including the possible `ValueError`, compute `JoinFrom` |
| PresetOverrides.JoinIsLoopResult | repos/system_upgrade/common/libraries/systemd.py:120-128 | with unique /usr names: a removed masker makes the loop pass over the file after it |
| PresetOverrides.JoinIsIntended | repos/system_upgrade/common/libraries/systemd.py:109-128 | if no masker that matched is directly followed by an overriding file, the join is the documented one |
| PresetOverrides.JoinIsIntendedIff | repos/system_upgrade/common/libraries/systemd.py:109-128 | with unique names on both sides that condition is exact |
| PresetOverrides.EffectiveOfUnique | repos/system_upgrade/common/libraries/systemd.py:113-114 | the /etc part is then every file except maskers of a name found in /usr |
| PresetOverrides.NeighbourSurvives | repos/system_upgrade/common/libraries/systemd.py:120-128 | masking one file keeps the overridden /usr copy of its neighbour |
| PresetOverrides.NeighbourSurvivesExample | repos/system_upgrade/common/libraries/systemd.py:120-128 | a concrete input for that |
| PresetOverrides.LaterNamesakeOverrides | repos/system_upgrade/common/libraries/systemd.py:120-128 | with equal /etc base names the condition is not necessary: a later namesake overrides the /usr file |
| SystemdPresets.GetSystemPresetFiles | repos/system_upgrade/common/libraries/systemd.py:154-167 | the joined files, sorted by full path |
| SystemdPresets.MatchingSpec | repos/system_upgrade/common/libraries/systemd.py:170-174 | a line looks at exactly the matching names below its load path |
| SystemdPresets.PresetTable.SetDefault | repos/system_upgrade/common/libraries/systemd.py:208-209 | the first setting of a unit stays |
| SystemdPresets.PresetTable.SetInstances | repos/system_upgrade/common/libraries/systemd.py:203-206 | a template line sets its instances in order |
| SystemdPresets.PresetTable.ParseEntry | repos/system_upgrade/common/libraries/systemd.py:177-209 | applies the settings of the line in order, up to a `ValueError` |
| SystemdPresets.ParsePresetFiles | repos/system_upgrade/common/libraries/systemd.py:212-237 | over the lines of the files: raises exactly if a line that is neither blank nor a comment is invalid and that is not ignored, and otherwise each unit has the state that the first line about it gives |
| SystemdPresets.ParsedIsTableOfLines | repos/system_upgrade/common/libraries/systemd.py:224-237 | the settings applied by the parser are the table of the lines |
| SystemdPresets.LineFirst | repos/system_upgrade/common/libraries/systemd.py:188-209 | a line fails exactly if it is malformed, and gives its state to exactly the units it applies to |
| SystemdPresets.TableIsFirstMatch | repos/system_upgrade/common/libraries/systemd.py:212-237 | each unit has the state of the first entry that applies to it, and other units are absent |
| SystemdPresets.InvalidEntriesHaveNoEffect | repos/system_upgrade/common/libraries/systemd.py:229-236 | dropping the invalid entries changes nothing |
| SystemdPresets.EtcBeatsUsr | repos/system_upgrade/common/libraries/systemd.py:162-167 | a unit with an applicable /etc entry has the state of the first such entry |
| SystemdPresets.FilesInForce | repos/system_upgrade/common/libraries/systemd.py:162-167 | the join and the sort together read the /etc files in force first and then the /usr files that are not overridden |
| SystemdPresets.SystemPresets | repos/system_upgrade/common/libraries/systemd.py:254-255 | from the listings of the two directories to the table: what the first line about a unit says, the /etc files in force before the /usr files in force |
| KernelCmdline.CollectUpgradeKernelArgs | repos/system_upgrade/common/actors/addupgradebootentry/libraries/addupgradebootentry.py:23-44 | requests win over live mode, live mode over the defaults, and nothing else is there |
| ArgOrder.TrySortRaisesIffMixed | repos/system_upgrade/common/actors/addupgradebootentry/libraries/addupgradebootentry.py:79-81 | a sort whose comparison of no value with a string raises, raises exactly if a key occurs with and without a value, and sorts otherwise |
| ArgOrder.EverySorterRaisesIffMixed | repos/system_upgrade/common/actors/addupgradebootentry/libraries/addupgradebootentry.py:81 | every program that sorts what can be compared by asking which of two is less raises on the same lists and gives the same order |
| ArgOrder.SorterExists | repos/system_upgrade/common/actors/addupgradebootentry/libraries/addupgradebootentry.py:81 | such programs exist for every length |
| KernelCmdline.FormatRaisesIff | repos/system_upgrade/common/actors/addupgradebootentry/libraries/addupgradebootentry.py:58-84 | printing raises exactly if a key is there with and without a value |
| KernelCmdline.FormatOfEverySorter | repos/system_upgrade/common/actors/addupgradebootentry/libraries/addupgradebootentry.py:81 | the line, and whether there is one, is the same for every way of sorting |
| KernelCmdline.FormatIsCanonical | repos/system_upgrade/common/actors/addupgradebootentry/libraries/addupgradebootentry.py:58-84 | the printed line, and whether printing raises, depend only on the multiset of single arguments |
| KernelCmdline.FormatRoundTrip | repos/system_upgrade/common/actors/addupgradebootentry/libraries/addupgradebootentry.py:58-84 | splitting at spaces and the first '=' recovers the single arguments |
| KernelCmdline.PrintSpec | repos/system_upgrade/common/actors/addupgradebootentry/libraries/addupgradebootentry.py:61-65 | an argument without value or with an empty one is printed as its key, any other with "=" and the value |
| KernelCmdline.CollectedArgsPrint | repos/system_upgrade/common/actors/addupgradebootentry/libraries/addupgradebootentry.py:79-81 | collected arguments never mix a key with and without value |
| KernelCmdline.UndesiredArgsPrintIff | repos/system_upgrade/common/actors/addupgradebootentry/libraries/addupgradebootentry.py:47-55 | undesired arguments print, in any iteration order, exactly if the requested removals are consistent and do not contradict those of live mode |
| KernelCmdline.LiveModeClash | repos/system_upgrade/common/actors/addupgradebootentry/libraries/addupgradebootentry.py:47-55 | asking to remove `quiet` with a value in live mode makes the printer raise |
| KernelCmdline.FigureOutCommands | repos/system_upgrade/common/actors/addupgradebootentry/libraries/addupgradebootentry.py:87-122 | the commands spelled out, the separate root argument, and when printing raises |
| KernelCmdline.RootOfSpec | repos/system_upgrade/common/actors/addupgradebootentry/libraries/addupgradebootentry.py:105 | the last root argument is the one that is enforced |
| KernelCmdline.EntryArguments | repos/system_upgrade/common/actors/addupgradebootentry/libraries/addupgradebootentry.py:87-122 | run through their printed strings, the commands leave the default and added arguments without any undesired one |
| KernelCmdline.NoLeakToTarget | repos/system_upgrade/common/actors/addupgradebootentry/libraries/addupgradebootentry.py:132-155 | through the printed commands: no undesired argument is on the upgrade entry, and the target entry has exactly the arguments of it that were not added, were on the source or are wanted on the target |
| MountSplit.DirNameShrinks | repos/system_upgrade/common/actors/addupgradebootentry/libraries/addupgradebootentry.py:278-279 | going up shortens every absolute path that is not the root |
| MountSplit.SplitPathOnMountPoint | repos/system_upgrade/common/actors/addupgradebootentry/libraries/addupgradebootentry.py:275-287 | the loop ends at the deepest mounted ancestor-or-self, and the suffix starts with a slash |
| MountSplit.RejoinsToPath | repos/system_upgrade/common/actors/addupgradebootentry/libraries/addupgradebootentry.py:281-287 | mount point and suffix give the path back up to a final slash |
| MountSplit.WalkAgreesWithSearch | repos/system_upgrade/common/libraries/overlaygen.py:244-252 | walking up and the reverse search find the same owner |
| RepoFiles.ReadLinesSpec | repos/system_upgrade/common/actors/adjustlocalrepos/libraries/adjustlocalrepos.py:41-42 | the lines read are together the text, cut after each newline and nowhere else |
| RepoFiles.ExtractRepos | repos/system_upgrade/common/actors/adjustlocalrepos/libraries/adjustlocalrepos.py:33-64 | the two loops compute the repositories of a text |
| RepoFiles.ExtractSpec | repos/system_upgrade/common/actors/adjustlocalrepos/libraries/adjustlocalrepos.py:44-64 | the repositories are together the stripped lines from the first one on that starts with '[', and only their first lines start with '[' |
| RepoFiles.HeaderId | repos/system_upgrade/common/actors/adjustlocalrepos/libraries/adjustlocalrepos.py:70 | a repository is chosen by what its header has between the brackets |
| RepoFiles.ReposOfConcat | repos/system_upgrade/common/actors/adjustlocalrepos/libraries/adjustlocalrepos.py:55-64 | splitting undoes concatenation |
| RepoFiles.OnlyLocalUrlsChange | repos/system_upgrade/common/actors/adjustlocalrepos/libraries/adjustlocalrepos.py:9-30 | only `baseurl` and `mirrorlist` lines with a local URL change, and then point below the bind mount |
| RepoFiles.LocalUrlIsRedirected | repos/system_upgrade/common/actors/adjustlocalrepos/libraries/adjustlocalrepos.py:21-29 | what an unquoted local URL becomes |
| RepoFiles.SettingIsAdjusted | repos/system_upgrade/common/actors/adjustlocalrepos/libraries/adjustlocalrepos.py:20-29 | what a setting becomes, with any white space, quotes, slashes and field name |
| RepoFiles.OtherLinesAre | repos/system_upgrade/common/actors/adjustlocalrepos/libraries/adjustlocalrepos.py:20-21 | comments and lines without a local URL stay, and exactly a line that mentions one and has no "=" raises |
| RepoFiles.AdjustLocalRepos | repos/system_upgrade/common/actors/adjustlocalrepos/libraries/adjustlocalrepos.py:67-80 | the new text, or the `ValueError` for a line without '=' |
| RepoFiles.AdjustedReposShape | repos/system_upgrade/common/actors/adjustlocalrepos/libraries/adjustlocalrepos.py:67-74 | headers stay, other repositories stay, chosen ones are adjusted line by line |
| RepoFiles.WrittenReposReadBack | repos/system_upgrade/common/actors/adjustlocalrepos/libraries/adjustlocalrepos.py:76-80 | written repositories read back as themselves exactly if no line has outer white space and the last is not empty |
| RepoFiles.RedirectedLineIsBareIff | repos/system_upgrade/common/actors/adjustlocalrepos/libraries/adjustlocalrepos.py:21-29 | a redirected line is never empty, and has outer white space exactly if its path ends in white space |
| RepoFiles.RewriteRoundTrip | repos/system_upgrade/common/actors/adjustlocalrepos/libraries/adjustlocalrepos.py:67-80 | extract, adjust, write, extract gives the adjusted repositories if and only if the text does not end in an empty line and no redirected URL of a chosen repository ends in white space inside its quotes |
| RepoFiles.TrailingEmptyLineIsLost | repos/system_upgrade/common/actors/adjustlocalrepos/libraries/adjustlocalrepos.py:76-80 | a concrete text that loses its last line |
| RepoFiles.QuotedSpaceIsLost | repos/system_upgrade/common/actors/adjustlocalrepos/libraries/adjustlocalrepos.py:25-28 | a concrete text that loses a space of a quoted URL |
| Numbers.ToNatOfDecimal | commands/upgrade/breadcrumbs.py:48 | `int(str(n)) == n`, and no leading zero is written |
| Numbers.DecimalInjective | commands/upgrade/breadcrumbs.py:48 | list indices are printed differently |
| Breadcrumbs.ExpandIsAttach | commands/upgrade/breadcrumbs.py:44-49 | expanding a value attaches the dotted path of each leaf to the key |
| Breadcrumbs.FlattenedIsDotted | commands/upgrade/breadcrumbs.py:42-51 | one entry per leaf, in order, with distinct keys |
| Breadcrumbs.FlatEntryIffLeaf | commands/upgrade/breadcrumbs.py:42-51 | an entry is there exactly if its dotted path leads to a scalar, which is its value |
| Breadcrumbs.FlattenedIsLastLeaf | commands/upgrade/breadcrumbs.py:42-51 | for every dictionary, dots or not: each key once, with the last leaf whose dotted path it is |
| Breadcrumbs.NoLeafIsMergedIff | commands/upgrade/breadcrumbs.py:42-51 | there are as many entries as leaves if and only if no two paths have the same parts once keys are split at their dots |
| Breadcrumbs.EveryLeafIsFoundIff | commands/upgrade/breadcrumbs.py:42-51 | every leaf is found under its dotted path if and only if leaves with the same parts have the same value |
| Breadcrumbs.DottedKeyMergesLeaves | commands/upgrade/breadcrumbs.py:42-51 | a concrete dictionary in which a dot in a key merges two leaves |
| Versions.MatchesVersion | repos/system_upgrade/common/libraries/config/version.py:170-256 | the corrections and the evaluation, with all `ValueError` cases |
| Versions.EvaluateList | repos/system_upgrade/common/libraries/config/version.py:236-256 | the loop with early return is the conjunction of the comparisons |
| Versions.EvaluateMeaning | repos/system_upgrade/common/libraries/config/version.py:236-256 | when a list means anything at all, and what it then accepts |
| Versions.OrderIsIrrelevant | repos/system_upgrade/common/libraries/config/version.py:236-256 | the answer depends only on which entries there are |
| Versions.JoiningComparisonsIsAnd | repos/system_upgrade/common/libraries/config/version.py:187-193 | concatenating comparison lists is AND |
| Versions.JoiningBareVersionsIsOr | repos/system_upgrade/common/libraries/config/version.py:187-193 | concatenating bare lists is OR |
| Versions.MixedListRaises | repos/system_upgrade/common/libraries/config/version.py:193 | a mixed list raises |
| Versions.AcceptedVersionsAreConvex | repos/system_upgrade/common/libraries/config/version.py:243-252 | the accepted versions form an interval |
| Versions.OnlyNumbersMatter | repos/system_upgrade/common/libraries/config/version.py:132-135 | versions with equal numbers are treated alike |
| Numbers.ToNatAppend | repos/system_upgrade/common/libraries/config/version.py:135 | digits are positional |
| Numbers.DigitValues | repos/system_upgrade/common/libraries/config/version.py:135 | what each digit is worth |
| Versions.ValidVersionIff | repos/system_upgrade/common/libraries/config/version.py:138-144 | valid are exactly two runs of digits around a dot, the first not starting with a zero, and at most one newline after them |
| Versions.VersionOfNumbers | repos/system_upgrade/common/libraries/config/version.py:132-135 | the version written from two numbers is valid and means these numbers |
| Versions.SpelledComparisonsMean | repos/system_upgrade/common/libraries/config/version.py:236-252 | `op major.minor` strings mean the conjunction of comparisons of numbers, major versions first |
| Versions.TenIsMoreThanNine | repos/system_upgrade/common/libraries/config/version.py:243-252 | '10.2' meets '>= 9.0' |
| Versions.AutocorrectSpelled | repos/system_upgrade/common/libraries/config/version.py:221-228 | a comparison is corrected in its version only |
| Versions.CentosSubstitutes | repos/system_upgrade/common/libraries/config/version.py:213-234 | on CentOS the answer is the one with virtual versions in place of the configured ones |
| Versions.MajorComparisonIff | repos/system_upgrade/common/libraries/config/version.py:177-179 | where a comparison with a configured major version differs from the documented one, and in which direction |
| Versions.EveryOperatorAgreesIff | repos/system_upgrade/common/libraries/config/version.py:177-179 | all operators do what is documented exactly for versions of another major and for the virtual version |
| Versions.MajorListAgreesIff | repos/system_upgrade/common/libraries/config/version.py:177-179 | the exact condition for a whole list of such comparisons to give the documented answer |
| Versions.BareMajorsAgreeIff | repos/system_upgrade/common/libraries/config/version.py:177-179 | the exact condition for a list of bare major versions |
| Versions.UnknownMajorRaises | repos/system_upgrade/common/libraries/config/version.py:138-144 | a major version that is not configured, or off CentOS, raises |
| Versions.MajorComparisonExample | repos/system_upgrade/common/libraries/config/version.py:177-179 | with virtual version 9.7 the list `<= 9` rejects 9.8 |
| DnfExcludes.GetMainDump | repos/system_upgrade/common/libraries/dnflibs/dnfconfig.py:53-79 | the options in the lines after the first `[main]`, and an error exactly if there is none |
| DnfExcludes.OptionLineSpec | repos/system_upgrade/common/libraries/dnflibs/dnfconfig.py:67 | a line gives what is around its first '=', without white space |
| DnfExcludes.NoOptionLine | repos/system_upgrade/common/libraries/dnflibs/dnfconfig.py:64-77 | a line without '=' gives nothing |
| DnfExcludes.ReadOptionsSpec | repos/system_upgrade/common/libraries/dnflibs/dnfconfig.py:62-79 | the options are those that some line sets, each with the value of the last such line |
| DnfExcludes.DumpReadsBack | repos/system_upgrade/common/libraries/dnflibs/dnfconfig.py:53-79 | reading a dump gives the dumped options |
| DnfExcludes.NamesOfJoined | repos/system_upgrade/common/libraries/dnflibs/dnfconfig.py:24-28 | splitting a joined list of names gives the names |
| DnfExcludes.NamesOfPieces | repos/system_upgrade/common/libraries/dnflibs/dnfconfig.py:24-28 | however the items are padded, and with empty ones among them, the names read are the names written, in order |
| DnfExcludes.EveryValueReads | repos/system_upgrade/common/libraries/dnflibs/dnfconfig.py:24-28 | every text is a list of such items |
| DnfExcludes.NamesAreNames | repos/system_upgrade/common/libraries/dnflibs/dnfconfig.py:89-90 | what is read is never empty, padded or containing a comma |
| DnfExcludes.GetExcludedPkgs | repos/system_upgrade/common/libraries/dnflibs/dnfconfig.py:82-90 | returns the names written in the option, however it is padded |
| DnfExcludes.ListOfSet | repos/system_upgrade/common/libraries/dnflibs/dnfconfig.py:137 | each name once, in some order |
| DnfExcludes.ExcludeLeappRpms | repos/system_upgrade/common/libraries/dnflibs/dnfconfig.py:117-138 | afterwards the names written in the option are the old ones and the leapp packages, other options are untouched, and a failure changes nothing |
| DnfExcludes.ExcludeTwice | repos/system_upgrade/common/libraries/dnflibs/dnfconfig.py:121-126 | a second run leaves the set of excludes as it was |
| EfiPaths.ConversionInvertibleIff | repos/system_upgrade/common/libraries/efi.py:22-34 | the conversions are inverse exactly if the rest has no leading slash, no backslash and no second mount point |
| EfiPaths.ConversionRoundTrip | repos/system_upgrade/common/libraries/efi.py:92-94 | the direction the upgrade relies on |
| EfiPaths.FirmwareForm | repos/system_upgrade/common/libraries/efi.py:34 | the firmware sees one backslash and the rest with its slashes turned |
| EfiPaths.FirmwareFormExample | repos/system_upgrade/common/libraries/efi.py:26 | the documented example |
| EfiPaths.CanonicalForm | repos/system_upgrade/common/libraries/efi.py:94 | and back: slashes and backslashes in front are one mount point, the others turn |

## Left out

- External commands (mount, dd, mkfs, grubby, dnf, find, du, statvfs): state updates or parameters, which may fail where the code handles failure.
- Failures of `umount` and `rm -rf`, which the code only logs: assumed not to happen.
- MountTable.NotReadyBreaks: a mount that a later mount over a directory above it hides still counts as one that a removal reaches, so for such a host the condition of the clean run asks for more than is needed.
- OverlayLeftovers.DirectoriesAfterwards: directories are told apart by their paths, and what a mounted file system shows in their place is not modelled; of the missing directories above one that could not be made, all count as made.
- PresetOverrides.JoinIsIntendedIff: the condition is exact for unique base names in /etc; with equal ones, in subdirectories, it is sufficient (PresetOverrides.JoinIsIntended) and not necessary (PresetOverrides.LaterNamesakeOverrides).
- OverlayView.TargetShieldsHost: mounts made below the system overlay later on are not propagated to the bind target, so there everything belongs to "/"; with mount propagation it would belong to the overlays of its own mount points.
- Symbolic links, '.' and '..' in paths, mount propagation and the contents of file systems: paths are strings, and one path is inside another by its spelling.
- The code run inside the overlay: it may raise, and leaves the mount table as it found it.
- Floating point in the free space estimate: integer floor; free space is constant during a preparation.
- `fnmatch` and `os.walk`: an arbitrary matching relation and directory listing; that an '@' in a pattern is matched by an '@' is assumed where stated.
- The values that `root=` could have besides a string: added arguments have no tuple values, because only undesired ones do.
- grubby itself: its calls are set operations on the arguments parsed from the printed strings; it is not modelled that grubby replaces arguments by key.
- DNF's own spelling of a saved exclude list: any text with the same names.
- Digits outside ASCII in versions, and non-string arguments of `matches_version` (`TypeError`).
- Universal newline translation: repository text is what Python sees after it.
- Reports, messages, logging, the leapp framework, isolation by chroot or nspawn, and network or subscription code.
