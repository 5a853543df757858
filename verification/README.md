# A verified model of the Fwife installer

Fwife is the graphical installer of Frugalware: a GTK assistant whose pages are plugins, each with an optional
`prerun` and a `run`, sharing one association list of results. Below the widgets it keeps state that no single
branch makes correct: which partition is the root and in what order partitions are mounted, which plugin may run
and what it will find in the shared list, which packages are still to be installed from the next disc, which
mirrors and time zones a text file holds, which packages are flagged. This project models that state and proves
what the installer relies on, over every sequence of clicks, every reply of the user and of the libraries, and
every input file.

A page that changes its state in place is a class whose methods are proved equal to functions on values; the laws
are lemmas about those functions, so they hold of the methods. A widget is what the code reads from it: rows, a
selected row, an answer, whether the page is complete. A call into libpacman, libparted or the kernel is a reply
that may be anything, or one entry in a trace of calls. A `GList` is a sequence. Wherever the program would follow
a NULL pointer the model returns `None` instead of assuming that it does not happen.

| file | models |
|---|---|
| `GLists.dfy`, `CStrings.dfy` | the list and string routines the program is built on, `g_list_sort` included |
| `ConfigStore.dfy` | the association list of `src/util.c` |
| `PartDisk.dfy` | the partition page: a state machine on values, and the records it shares on the heap |
| `Directories.dfy` | which directory the text of a mount point stands for |
| `MountOrder.dfy` | what that page's `run` writes: the sort, the fstab, the mounts |
| `Wizard.dfy` | the plugin table and the re-entrant next/previous controller |
| `PackageNames.dfy` | stripping the version off a package name |
| `Install.dfy` | the transaction protocol, its retries, the walk over several discs, the download counters |
| `Mirrors.dfy` | the mirror file, written, read and reordered |
| `TimeZones.dfy`, `Coordinates.dfy` | the zone table, its tree, its coordinates |
| `Flags.dfy`, `Modes.dfy`, `SelectLists.dfy` | package flags: the laws of overwriting, the writes of the modes, the flat lists |
| `PackageFlow.dfy` | from the selected packages to the committed ones |
| `WifiScan.dfy`, `Interfaces.dfy` | the two readings of a wireless scan, the interface list |

## What the code does not do

Where the code falls short of its purpose or of its own messages, the model follows the code, and a lemma says
exactly when it does what it should.

- The comparison behind the mount order goes by the length of the text and calls an unmounted record equal to
  everything, so the sort can leave `/home` in front of `/`, or `/usr/a` in front of `/usr///`, which then hides it.
  The order is right however the records are listed if and only if nothing is nested, or nothing is left unmounted
  and every directory is spelled shorter than what lies inside it (`ParentsFirstForEveryArrangement`); with plain
  spellings lengths are no concern (`PlainForEveryArrangement`). An empty or one-letter mount point can come before
  the root (`RootFirstForEveryArrangement`).
- A complete page need not mount exactly one partition on the target directory. A partition used as swap and then
  made the root with its filesystem kept is still written as swap, and nothing is mounted there (`RootKeptAsSwap`).
  Any other partition whose mount point stands for the target directory, the empty text included, is mounted there
  as well (`TwoRoots`). `EveryRunMountsOneRoot` gives the count and the exact condition.
- When no disk carries a partition table, software RAID partitions stay in the list on show. Choosing one as root
  completes the page, although `run` gathers nothing and mounts nothing (`RaidRootIsNotMounted`). If a disk has a list
  at a later detection, they end up in front of it.
- The mount point dialog says that an empty entry cancels; the empty text is stored (`EmptyEntryCancels`).
- After gparted the root pointer can refer to a record that is on no list any more. The invariant survives, because a
  dead record is never mounted by `run`.
- A refused install target is only logged (`CommitsEverything`), and answering that there is no further disc ends
  the installation with success whatever is left. `InstallPkgsDiscs` says exactly when everything was installed.
- The download counter takes the second of two files of equal size for more of the first (`TotalIsExact`).
- Coordinates with seconds are recognised by the size of the number, so those with few degrees are misread
  (`ParsesExactly`, `LongFormMisread`).
- Each visit to the time zone page appends the whole table to what the earlier visits left (`VisitPage`).
- In basic mode every desktop leaves a category of its own selected after the user has switched to another
  (`SwitchingDesktopsLeavesTraces`); intermediate mode forgets GNOME and XFCE only (`ChoosingAgainLeavesTraces`).
- One box of intermediate mode passes a label its handler does not know (`OneBoxIsDead`).
- The test whether an access point is encrypted starts at a label that itself contains the letters it looks for
  (`EncryptionReadsAsOn`, `OffReadsAsOn`).
- Deleting an interface skips the element after each one removed (`DelLeavesNone`), and a name longer than its
  field is stored cut (`AddKeepsDistinct`).

## Model

| member | source | states |
|---|---|---|
| GLists.SortIsStable | src/plugins/partdisk.c:1105-1108 | the list sort the program calls puts a list in ascending order of any key its comparison follows, and keeps elements of equal key in their old order |
| GLists.SortIgnoresArrivalOrder | src/fwife.c:54-59 | with distinct keys, any two arrangements of the same elements sort to the same list |
| ConfigStore.PutGet | src/util.c:84-115 | after a put the name reads back the new value and every other name its old one; the names are the old ones plus this one, and stay unique |
| ConfigStore.DataGet | src/util.c:84-96 | the index loop finds the first entry of the name, and finds one exactly when the name is there |
| ConfigStore.DataPut | src/util.c:98-115 | overwriting or appending gives the updated list: the new value reads back, no name is lost or doubled |
| MountOrder.MountedSortIsStable | src/plugins/partdisk.c:1054-1063 | when every record is mounted the sort is by length of mount point, and stable |
| Directories.CommandLeadsThere | src/plugins/partdisk.c:382-387 | the directory taken for a mount point is the one the path on the mount command leads to, idle slashes and dots resolved |
| Directories.NamesAndDots | src/plugins/partdisk.c:382-387 | one more name on a mount point is one directory further down, two dots go back up, one dot and idle slashes stay |
| Directories.PlainInsideIsLonger | src/plugins/partdisk.c:1054-1063 | of two plainly spelled paths the one inside the other is longer, which is what the comparison counts on |
| MountOrder.MountedSortParentsFirst | src/plugins/partdisk.c:1105-1108 | when every record is mounted and every directory is spelled shorter than what lies inside it, no path comes before a directory it lies in, as the comment above the sort promises |
| MountOrder.BadArrangement | src/plugins/partdisk.c:1054-1063 | from any records with a nested pair and one left unmounted, an arrangement of those very records that the sort leaves in the wrong order |
| MountOrder.LongSpellingGoesLater | src/plugins/partdisk.c:1054-1063 | from any mounted records with a directory spelled as long as something inside it, or longer, an arrangement that mounts the directory later and so hides what is inside |
| MountOrder.SlashesHideTheChild | src/plugins/partdisk.c:1054-1063 | the case of `/usr///` and `/usr/a` |
| MountOrder.ParentsFirstForEveryArrangement | src/plugins/partdisk.c:1054-1108 | directories, however they are spelled, precede what lies inside them for every arrangement of the records if and only if nothing is nested, or no record is unmounted and every directory is spelled shorter than what lies inside it |
| MountOrder.PlainForEveryArrangement | src/plugins/partdisk.c:1054-1108 | with plain spellings that is so if and only if no record is unmounted or nothing is nested |
| MountOrder.RootFirstForEveryArrangement | src/plugins/partdisk.c:1105-1108 | with everything mounted, "/" is the first path mounted in every arrangement if and only if each other mount point has two characters or more |
| MountOrder.MountDev | src/plugins/partdisk.c:366-402 | one more fstab line, of the swap or the filesystem form, and one more mount unless it is swap |
| MountOrder.SortKeepsLinesAndMounts | src/plugins/partdisk.c:1099-1118 | sorting changes only the order: the same lines and the same mounts, each as often |
| MountOrder.SortedMountsInOrder | src/plugins/partdisk.c:1105-1118 | under that condition the mount commands themselves come directory before content |
| MountOrder.WriteFstab | src/plugins/partdisk.c:1075-1118 | run writes the five fixed lines and then one line per mounted record; read field by field, the lines that are not swap are in order the mounts made, with the device, the mount point and the type probed for that device, and the swap lines name exactly the devices that are swap by mount or type; directories are mounted before their contents under the exact condition |
| MountOrder.FixedLines | src/plugins/partdisk.c:1083-1092 | the five fixed lines field by field: each kernel filesystem on its own mount point with its own type, options and no checks |
| MountOrder.WrittenByField | src/plugins/partdisk.c:366-402 | for any arrangement of the records, the lines mountdev appends are, field by field, those of the mounts in order and of the swap devices; every mount is of a gathered record whose own mount text is its point |
| PartPage.MoveRootKeeps | src/plugins/partdisk.c:791-805 | moving the root through the shared pointer leaves exactly one root on the page, the partition chosen, the page complete and the invariant kept |
| PartPage.SetRootKeeps | src/plugins/partdisk.c:763-807 | setting the root partition, formatted or not, keeps the page's invariant |
| PartPage.SetSwapKeeps | src/plugins/partdisk.c:828-861 | using a partition as swap keeps the invariant, because the record's own mount is checked |
| PartPage.SetMountpointKeeps | src/plugins/partdisk.c:717-760 | entering a mount point keeps the invariant; the guard reads the view, so the proof needs the view to agree with the list |
| PartPage.ChangeDeviceKeeps | src/plugins/partdisk.c:864-888 | showing another device keeps the invariant |
| PartPage.DetectResets | src/plugins/partdisk.c:238-286 | after a detection nothing is mounted at "/", the stale root pointer notwithstanding, except a RAID partition that was the root while no disk had a list |
| PartPage.DetectKeeps | src/plugins/partdisk.c:238-286 | a detection followed by showing a device keeps the invariant, RAID partitions left in the list on show or swept into the first disk's list included |
| PartPage.StepKeepsInvariant | src/plugins/partdisk.c:717-906 | any one event keeps the invariant: the list on show can be seen, the view agrees with it row by row, the only partition on the page mounted at "/" is the one pointed at, a complete page has one, and no record is listed twice |
| PartPage.RunKeepsInvariant | src/plugins/partdisk.c:717-906 | any sequence of events from any state that satisfies the invariant ends in one that does |
| PartPage.GatheredRoot | src/plugins/partdisk.c:1099-1103 | the records run gathers from all devices hold one root when the root pointer names a live partition mounted at "/", and none otherwise; on a complete page it names one if and only if some disk has a list |
| PartPage.OneRootExactly | src/plugins/partdisk.c:1099-1118 | what a page mounts on the target directory is its root, if that is live and not swap, and every other partition whose mount point stands for that directory; with a live root that is not swap it mounts exactly one there if and only if there is no such other partition; on a complete page the root is live if and only if some disk has a list |
| PartPage.EveryRunMountsOneRoot | src/plugins/partdisk.c:1099-1118 | from the start of the program, after every sequence of events, that count and that condition hold |
| PartPage.EmptyEntryMountsTwice | src/plugins/partdisk.c:745-755 | on any complete page with a disk's list, an empty entry for another partition that is not swap keeps the page complete and makes a second mount on the target directory |
| PartPage.TwoRoots | src/plugins/partdisk.c:717-807 | a run from the start that does so |
| PartPage.RaidRootIsNotMounted | src/plugins/partdisk.c:283-284 | a run from the start that ends complete and mounts nothing: no disk has a list and a software RAID is chosen as root |
| PartPage.RootIsMountedFirst | src/plugins/partdisk.c:1105-1118 | with a live root that is not swap, everything mounted and no other path shorter than two characters, the mount at "/" is the first |
| PartPage.RowNamesItsRecord | src/plugins/partdisk.c:786-797 | the record found by the device name shown in a row is the record the row stands for, when a device's partitions are named apart |
| PartPage.FormatChangesTheRow | src/plugins/partdisk.c:809-825 | formatting changes the type of the selected partition, and of no other record, and only if a filesystem was made |
| PartPage.SwapChangesTheRow | src/plugins/partdisk.c:828-861 | the selected partition becomes swap in mount and type unless it is the root or the dialog is refused; no other record changes |
| PartPage.MountpointChangesTheRow | src/plugins/partdisk.c:717-760 | the selected partition takes the text unless it is the root, a swap partition that is kept, or the text is "/" or "swap"; no other record changes |
| PartPage.RootChangesTheRow | src/plugins/partdisk.c:763-807 | the selected partition takes "/" and the type it was formatted with, the old root loses its mount point, no other record changes |
| PartPage.RootKeptAsSwap | src/plugins/partdisk.c:763-807 | a run of the page that ends complete with nothing mounted on the target directory |
| PartPage.GuardReadsTheView | src/plugins/partdisk.c:731-755 | the root keeps its mount whatever is answered and typed if and only if the view shows it mounted at "/" |
| PartPage.EmptyEntryCancels | src/plugins/partdisk.c:745-755 | an empty entry changes no record if and only if the row is guarded or already holds the empty text |
| PartPage.DeviceIsShown | src/plugins/partdisk.c:864-888 | when a device's list is the only one of its name, choosing it puts that list on show, and the view shows device, type and mount of its records, row for row; nothing else changes |
| PartPage.NoListIsShown | src/plugins/partdisk.c:883-888 | a device without a list shows an empty one, unless there are no lists at all and what is on show stays |
| PartPage.ButtonsLeaveTheRest | src/plugins/partdisk.c:717-861 | no button changes lists, what is on show, any record's device, or, save for the root button, the root; whatever it changes is visible in the view at once |
| PartPage.RefusalsChangeNothing | src/plugins/partdisk.c:717-861 | every refusal, cancelled dialog and guard of the four buttons leaves the page as it was |
| PartPage.DetectedByField | src/plugins/partdisk.c:238-286 | after a detection each disk has its own records under its own name, the first one behind what was still on show; RAID records are on show, old records, root and Forward button as they were |
| PartPage.DetectionsByAnswer | src/plugins/partdisk.c:891-906 | only a confirmed gparted, or a visit without any list, detects; what follows is the choice of the first device, and gparted alone takes the Forward button away |
| PartPage.NamedByField | src/plugins/partdisk.c:497-651 | the search by device name ends on the first record of that name, or on the last of the list when there is none |
| PartDisk.DiskPage.UpdateTreeview | src/plugins/partdisk.c:455-494 | rebuilding the view makes it row for row the list on show |
| PartDisk.DiskPage.FindNamed | src/plugins/partdisk.c:497-651 | the search loop ends on the first record of the device, or on the last record of the list when there is none |
| PartDisk.DiskPage.RequestFormat | src/plugins/partdisk.c:497-651 | the type changes on the heap record exactly when a filesystem was made; -1 exactly on cancel |
| PartDisk.DiskPage.SwapFormat | src/plugins/partdisk.c:654-714 | the record found becomes linux-swap unless the dialog is refused |
| PartDisk.DiskPage.SetRootPart | src/plugins/partdisk.c:763-807 | on heap records shared by lists, view and root pointer, the button does what the state machine says, no record appearing or vanishing |
| PartDisk.DiskPage.SetSwapPart | src/plugins/partdisk.c:828-861 | on the shared heap records the swap button does what the state machine says: the record looked up by name is retyped, the one in the selected row becomes swap, the root is refused |
| PartDisk.DiskPage.SetMountpointOf | src/plugins/partdisk.c:717-760 | on the shared heap records the mount point button does what the state machine says, guards and stored text included |
| PartDisk.DiskPage.SetFormatPart | src/plugins/partdisk.c:809-825 | formatting a selected row retypes one shared record and touches no mount, list or pointer |
| PartDisk.DiskPage.ChangePartList | src/plugins/partdisk.c:864-888 | choosing a device shows the list stored for that very device, or an empty one when it has none, and changes no record |
| PartDisk.DiskPage.DetectRaids | src/plugins/partdisk.c:173-206 | one fresh unmounted record per software RAID goes to the end of the list on show |
| PartDisk.DiskPage.DetectParts | src/plugins/partdisk.c:238-286 | a detection replaces the lists by fresh unmounted records, one per partition, disk by disk in order, none shared, what was still on show in front of the first; RAID records stay on show, and the root pointer is left alone |
| PartDisk.DiskPage.RunGpartedTool | src/plugins/partdisk.c:891-906 | a confirmed run of gparted detects again, shows the first device and marks the page incomplete; a refused one does nothing |
| PartDisk.DiskPage.PagePrerun | src/plugins/partdisk.c:1045-1052 | visits detect until some disk has a list, later ones change nothing |
| PartDisk.DiskPage.RunPage | src/plugins/partdisk.c:1066-1118 | run on the heap records writes the fstab for all devices' records as they stand, line by line and field by field, and makes exactly the mounts the theorems count |
| PartDisk.PartsExactly | src/plugins/partdisk.c:151-171 | a partition is listed if and only if it has a positive number, is no RAID member, and is either a plain entry of the table or inside an extended one |
| PartDisk.ListParts | src/plugins/partdisk.c:115-171 | one new unmounted record per listed partition, in order of the table, an extended partition replaced by what it holds, unknown filesystems and RAID suffixes treated as the program does |
| PartDisk.PartsInOrder | src/plugins/partdisk.c:151-171 | partitions are listed entry by entry in the order of the table, an extended partition's contents in its place, one by one |
| PartDisk.DeviceNameIs | src/plugins/partdisk.c:131-133 | a device name is cut at the first occurrence of the RAID suffix, and otherwise kept |
| Plugins.WizardOrderIsFixed | src/fwife.c:54-59 | in whatever order the plugin directory is read, the sorted wizard is the same list of pages |
| Plugins.WizardPages | src/fwife.c:54-59 | which page stands where, what its callbacks read from and leave in the shared list, and which pages have a prerun |
| Plugins.TableProvides | src/plugins/partdisk.c:1125-1143 | every key a page reads was stored by an earlier page or before the wizard, if and only if lang.sh was stored before it |
| Wizard.KeysAreThere | src/fwife.c:173-200 | whenever the invariant holds, the keys of the active plugin are in the shared list |
| Wizard.NextKeeps | src/fwife.c:173-200 | next, with any depth of re-entrant skips, keeps the invariant and ends on the active plugin's page |
| Wizard.EnterKeeps | src/plugins/configsource-discs.c:161-181 | entering a page, whose prerun may skip it by calling next again, keeps the invariant and ends on the active plugin's page |
| Wizard.ClickKeeps | src/fwife.c:152-226 | any one click, forward, back, close or cancel, keeps the invariant and ends on the active plugin's page |
| Wizard.SessionKeeps | src/fwife.c:152-226 | any sequence of such clicks keeps the invariant and ends on the active plugin's page |
| Wizard.NextAdvances | src/fwife.c:173-226 | one forward click, however deep the skips nest, runs each plugin it passes successfully once and enters each plugin with a prerun up to the new active one once, in wizard order, and none besides |
| Wizard.EnterAdvances | src/fwife.c:191-226 | the same count from the moment a page is entered, as when going back to a page that skips itself |
| Wizard.EveryCallbackFindsItsKeys | src/fwife.c:152-226 | for every order of loading, every sequence of clicks, closing and cancelling included, and every reply: the page shown is the active plugin's, no plugin is called before each earlier one has succeeded nor without its keys, keys stay unique, and nothing is called after an exit |
| Wizard.BackGoesDown | src/fwife.c:203-220 | from the page below on, one click on back runs each plugin it passes successfully once and enters each plugin with a prerun once, starting with the page below |
| Wizard.BackWithoutPrerun | src/fwife.c:203-220 | back to a page without a prerun shows that page, and nothing is called or stored |
| Wizard.BackWithPrerun | src/fwife.c:203-220 | back to a page whose prerun does not skip calls that prerun alone and shows that page; -1 ends the installer |
| Wizard.ForwardRefused | src/fwife.c:173-200 | a run that returns 1 keeps the user on its page, one that returns -1 ends the installer, and no other plugin is called |
| Wizard.ForwardAccepted | src/fwife.c:173-200 | any other value passes to the next page, shown at once when it has no prerun |
| Wizard.ForwardEnters | src/fwife.c:173-200 | a prerun that does not skip is called after the run, with what that run stored, and its page is shown |
| Wizard.ForwardSkips | src/fwife.c:191-226 | a page that skips itself is run at once as by another click, and the result of that is ignored |
| Wizard.OtherClicks | src/fwife.c:152-226 | closing runs the active plugin and exits, a confirmed cancellation exits and calls nothing, an unconfirmed one and buttons that are absent do nothing |
| Wizard.PutAllReads | src/util.c:98-115 | of what a callback stores under a key the last value reads back, and other keys are as before |
| Wizard.Controller.PluginNext | src/fwife.c:173-200 | the method on the controller's fields does what the recursive state machine says, with termination by distance to the last plugin |
| Wizard.Controller.SkipToNextPlugin | src/fwife.c:223-226 | the re-entrant call from a prerun is the same step |
| Wizard.Controller.PluginPrevious | src/fwife.c:203-220 | back goes exactly one plugin down and enters it, skips included, and the laws of going back below are about this step |
| Wizard.Controller.CloseInstall | src/fwife.c:162-170 | closing runs the active plugin once more, whatever it returns, and ends the installer |
| Wizard.Controller.CancelInstall | src/fwife.c:152-160 | cancelling ends the installer exactly when the question is answered yes |
| PackageNames.DropVersionUndoes | src/util.c:283-292 | stripping the version from name-version gives the name if and only if the version has exactly one dash, or neither has any |
| PackageNames.DropVersionInPlace | src/util.c:283-292 | the loop cuts the string at its last dash, twice |
| Install.AddTargets | src/plugins/install.c:310-315 | the loop asks for every stripped name in order, and the open transaction holds those not refused |
| Install.TryOnce | src/plugins/install.c:298-364 | one pass from the retry label makes only calls in turn and closes the transaction it opened; a locked database or a corrupted download the user wants again is retried, a win commits once, and everything else fails |
| Install.InstallPkgs | src/plugins/install.c:253-367 | under any replies and any number of retries all calls are in turn, starting with the three of the startup, and everything opened is closed again; on packages 0 is returned if and only if the library starts and some pass initialises, prepares, lists and commits after passes that were each locked out or corrupted and wanted again; then one list is committed, the targets that pass did not refuse, and otherwise none |
| Install.SucceedsExactly | src/plugins/install.c:298-364 | by the replies alone: success if and only if some pass initialises, prepares, lists and commits, every earlier one locked out or corrupted and wanted again |
| Install.FailsOn | src/plugins/install.c:298-364 | any other reply first, a failed initialisation, preparation or listing, a full disk, a refused repetition, a failed retrieval or commit, ends without success and commits nothing |
| Install.PlayMeans | src/plugins/install.c:253-367 | calls in turn mean what they say: the lists committed are those accepted since their transaction was opened, every opening has its closing |
| Install.CommitsArePrepared | src/plugins/install.c:317-343 | whatever is inspected or committed has been prepared since it was opened, and been asked for every name in order |
| Install.TargetsBeforePrepare | src/plugins/install.c:310-317 | no target is added to a transaction that has been prepared |
| Install.CommitsEverything | src/plugins/install.c:310-315 | a session that returned 0 has committed every target if and only if none was refused |
| Install.GListStrRemove | src/util.c:318-326 | the first equal string goes; without one the whole list is lost |
| Install.StrRemoveIs | src/util.c:318-326 | the helper takes out the first equal string wherever it stands, and returns the empty list when there is none |
| Install.RemoveFirstKept | src/util.c:318-326 | removing the first of the packages on a disc removes it from that sublist and leaves the other packages and their order alone |
| Install.Useful | src/plugins/install.c:397-404 | the scan of a disc lists the packages it holds, in order |
| Install.RemoveUseful | src/plugins/install.c:406-408 | the helper is never asked for an absent name: what remains is the list without the disc's packages, in order, and nothing is lost |
| Install.NextDisc | src/plugins/install.c:397-408 | the batch of a disc is the packages that it is the first inserted disc to hold, and the rest those on none so far |
| Install.BatchExactly | src/plugins/install.c:397-408 | a package is in a disc's batch if and only if it is listed, on that disc and on none inserted before |
| Install.LeftExactly | src/plugins/install.c:397-408 | after some discs a package is left as often as it was listed if it is on none of them, and not at all otherwise |
| Install.SessionCommits | src/plugins/install.c:253-367 | a session commits no more than its batch, and the whole batch if and only if the batch is empty or the session succeeds and none of its packages is refused |
| Install.InstalledEverything | src/plugins/install.c:369-416 | what the library has committed over all discs is the original list, each package as often as listed, if and only if nothing is left over and every batch was committed whole |
| Install.InstallPkgsDiscs | src/plugins/install.c:369-416 | after every disc, batches plus remainder are the original multiset, and a batch is what its disc is the first to hold; each batch goes through a legal session; 0 means every session succeeded, -1 that the last one failed and no earlier one; the library has committed the original list, each package exactly as often as listed, if and only if 0 is returned, the discs hold every package and no package of a batch was refused |
| Progress.Meter.ProgressUpdate | src/plugins/install.c:102-122 | after every callback, whether for a new file or once more for the last, the counters add up to no more than the files reported so far, and to exactly as much if and only if no two non-empty files in a row have the same size |
| Progress.TotalIsExact | src/plugins/install.c:102-122 | the same of any whole sequence of downloads, each reported any number of times |
| PackageFlow.TargetsAreTheNames | src/plugins/select.c:497-511 | the targets of the installation are the names that were resolved, in order, if and only if each version has one dash or neither it nor its name has any |
| PackageFlow.SelectThenInstall | src/plugins/install.c:435-440 | from the space check to the commit: the stored list is untouched when space is short, else a legal session runs on the stripped names, which are the resolved ones under the exact condition above |
| Mirrors.MirrorsReadAreGood | src/plugins/configsource.c:83-121 | whatever a file holds, the mirrors read from it have one-word countries and one-line URLs within the buffer, and are flagged by the preferred prefix |
| Mirrors.HeadThenTail | src/plugins/configsource.c:97-117 | however the buffer cuts a written line, the reader sees the same record and skips the rest of the line |
| Mirrors.ReadsBackWhatWasWritten | src/plugins/configsource.c:83-142 | reading a written file gives the same mirrors in order, flagged by the preferred prefix, if and only if every mirror has a country of one word and both fields fit a line of the buffer |
| Mirrors.ReadsBackByField | src/plugins/configsource.c:83-142 | the same mirror by mirror: URL and country come back in their own fields, and the use flag is the preferred prefix |
| Mirrors.AnyFileReads | src/plugins/configsource.c:83-121 | any file at all: reading fails if and only if some server line has no slash or no country line before it, and otherwise gives one mirror per server line, in order, with the URL of that line |
| Mirrors.GetMirrors | src/plugins/configsource.c:83-121 | the loop that cuts its buffer in place reads the file as specified |
| Mirrors.UpdateConfig | src/plugins/configsource.c:123-142 | the loop writes the header and two lines per mirror, the file whose lines are spelled out below |
| Mirrors.FileByLines | src/plugins/configsource.c:123-142 | the file line by line: six of header, then for each mirror its country and its server line, URL, distribution and architecture |
| Mirrors.OneSection | src/plugins/configsource.c:123-142 | exactly one line of the file opens a section, the one of the repository |
| Mirrors.ServerLineParts | src/plugins/configsource.c:137 | what stands behind the last slash of a server line names distribution and architecture, and what stands before it the URL |
| Mirrors.FileTellsArch | src/plugins/configsource.c:137 | files of the same mirrors for two architectures differ, unless there is no mirror |
| Mirrors.SaveMirrors | src/plugins/configsource.c:348-381 | prepending the checked rows and appending the others writes the file of the checked rows reversed, then the others in view order; an empty view or a disc source writes nothing |
| Mirrors.CheckedComeFirst | src/plugins/configsource.c:363-376 | in the saved order every checked mirror stands before every other, the checked ones reversed and the others as they stood |
| Mirrors.SavedByLines | src/plugins/configsource.c:348-381 | the saved file line by line, each row's name in its server line and its country above it |
| Mirrors.SavedThrice | src/plugins/configsource.c:363-376 | saving permutes the rows, and saving three times with the same checks is saving once |
| Mirrors.SavedTwice | src/plugins/configsource.c:363-376 | saving twice is saving once if and only if the checked rows read the same backwards |
| Mirrors.SavedOrderReadsBack | src/plugins/configsource.c:348-381 | the order saved is the order read at the next visit |
| Mirrors.ThreeVisits | src/plugins/configsource.c:83-381 | starting from any file, three visits that read it, check mirrors by the same choice and save leave the file that one visit leaves |
| TimeZones.FourCells | src/plugins/timeconf.c:288-304 | a line adds four cells if and only if it has three or four tokens |
| TimeZones.TableAligned | src/plugins/timeconf.c:286-306 | line k is in cells 4k to 4k+3 for all k if and only if every line but the comments has three or four tokens |
| TimeZones.TableReadsBack | src/plugins/timeconf.c:274-311 | reading a table of well-formed rows gives back the four fields of every row, a missing comment as an empty cell |
| TimeZones.CommentsAreSkipped | src/plugins/timeconf.c:274-311 | a comment line adds no cell |
| TimeZones.LongRowIsCut | src/plugins/timeconf.c:274-311 | a row too long for the buffer is cut, and its rest is taken for a row of its own |
| TimeZones.ReadableExactly | src/plugins/timeconf.c:389-430 | the page can be built from a flat table if and only if no row breaks off before its name and each name has more than slashes |
| TimeZones.MissingComment | src/plugins/timeconf.c:389-430 | a comment missing at the end of the table counts as an empty one |
| TimeZones.AppendLine | src/plugins/timeconf.c:288-304 | the token loop appends the line's trimmed tokens and the filler cell |
| TimeZones.PathUndoesSplit | src/plugins/timeconf.c:140-158 | country, slash, city is the zone name again if and only if the name has a slash and does not start with one |
| TimeZones.BuildGroups | src/plugins/timeconf.c:402-427 | each branch gains exactly its own cities, in table order |
| TimeZones.BuildOrders | src/plugins/timeconf.c:402-427 | a new tree has one branch per country, in the order in which the table first names them |
| TimeZones.TreePathsAreZoneNames | src/plugins/timeconf.c:442-463 | the paths made from the leaves of a branch are the zone names of that country, in table order |
| TimeZones.ZoneByField | src/plugins/timeconf.c:140-158 | a zone's place has the text before the first slash as country, the rest as city and the row's own comment |
| TimeZones.ZonesOfACountry | src/plugins/timeconf.c:140-158 | a zone belongs to a country if and only if its name starts with the country and a slash |
| TimeZones.LeavesByField | src/plugins/timeconf.c:402-427 | the leaves of a branch are the zones of that country in order, each with its city and its own comment |
| TimeZones.VisitsRepeat | src/plugins/timeconf.c:389-430 | after n visits a country lists its cities once, then twice over, and so on up to n times over |
| TimeZones.StaircaseCount | src/plugins/timeconf.c:389-430 | which is n(n+1)/2 times each |
| TimeZones.VisitPage | src/plugins/timeconf.c:389-430 | n calls of prerun on one page, with any table of well-formed rows, leave exactly that tree |
| TimeZones.TimePage.FwifetimeFind | src/plugins/timeconf.c:274-311 | the file's cells are appended to whatever the list already held |
| TimeZones.TimePage.AddRow | src/plugins/timeconf.c:410-423 | one row goes under the first branch of its country, or starts a new one |
| TimeZones.TimePage.Prerun | src/plugins/timeconf.c:389-430 | the tree gains every row of the whole flat list, when each has a name |
| TimeZones.FirstVisit | src/plugins/timeconf.c:389-463 | from file to path on a first visit: for any table of well-formed rows the leaves spell the table's zone names, and no country has two branches |
| Coordinates.ParseLatLongLoop | src/plugins/timeconf.c:82-121 | the loop and the truncating arithmetic return the specified pair, or nothing when no second sign is found |
| Coordinates.NoSecondSign | src/plugins/timeconf.c:82-100 | no pair is returned if and only if the string is too short or no sign follows its first character |
| Coordinates.AtoiSkipsSpace | src/plugins/timeconf.c:82-121 | white space before a number does not count |
| Coordinates.DigitsStop | src/plugins/timeconf.c:82-121 | what follows the digits does not count |
| Coordinates.ParsesExactly | src/plugins/timeconf.c:82-121 | the result is the exact signed degrees of both angles if and only if each has no seconds, or enough degrees, or is zero |
| Coordinates.LongFormMisread | src/plugins/timeconf.c:82-121 | of the string for New York in the long form the latitude is read exactly and the longitude as 7400 degrees west |
| Coordinates.InsideTheMap | src/plugins/timeconf.c:123-137 | a point of the globe lands on the image for every size, on its far edges only at longitude 180 and latitude -90 |
| Coordinates.MapKeepsOrder | src/plugins/timeconf.c:123-137 | east is to the right, north is up, and the crossing of equator and first meridian is the middle of the image |
| Coordinates.TruncateTowardZero | src/plugins/timeconf.c:123-137 | the cast drops the fraction toward zero, on either side |
| Coordinates.InsideTheMapRounded | src/plugins/timeconf.c:123-137 | it also does so in floating point, however the operations round, if they keep the order and a few representable numbers |
| Flags.FlagsAfter | src/plugins/select-intermediate.c:38-91 | any sequence of writes keeps the catalogue, and leaves each flag at what the last write to hit it wrote, or as it was |
| Flags.NoTraceExactly | src/plugins/select-intermediate.c:38-91 | in a given catalogue a sequence of writes leaves no trace after a second one if and only if every place keeps its flag under the first or is overwritten by the second |
| Flags.SecondDecides | src/plugins/select-intermediate.c:38-91 | a sequence that writes wherever an earlier one wrote leaves no trace of it |
| Flags.TwiceIsOnce | src/plugins/select.c:458-461 | repeating a sequence of writes, as run does after it refuses for lack of space, changes nothing |
| Flags.DeterminedExactlyWhereWritten | src/plugins/select-intermediate.c:38-91 | a flag no longer depends on the earlier flags if and only if some write of the sequence hits it |
| Modes.BasicModeDetermines | src/plugins/select-basic.c:149-321 | over the same catalogue and any two sets of flags, basic mode with one desktop and language ends in agreement on its five categories and on every package of its four lists |
| Modes.BasicCategoryFlags | src/plugins/select-basic.c:174-317 | the flag of every category after basic mode, whatever the catalogue |
| Modes.BasicPackageFlags | src/plugins/select-basic.c:174-317 | on the four lists basic mode clears, a package is selected afterwards if and only if every desktop gets it, or the chosen desktop adds it or takes its whole list |
| Modes.DesktopPackagesSelected | src/plugins/select-basic.c:238-317 | on any list, the packages of the chosen desktop are selected |
| Modes.BasicSwitchesOff | src/plugins/select-basic.c:211-317 | the servers, two language packs unless the language is English, and with any desktop but KDE its sound layer, are off |
| Modes.TweaksSelected | src/plugins/select-basic.c:174-240 | every desktop gets the tweak tool |
| Modes.CategoryTrace | src/plugins/select-basic.c:238-317 | in any catalogue, category by category: choosing a desktop and then another gives the flag that choosing the other at once gives, if and only if they are the same, or the category is not the first desktop's own, or it was selected before |
| Modes.SwitchingLeavesItsCategory | src/plugins/select-basic.c:238-317 | in a catalogue with the first desktop's own category not selected, switching to another desktop gives a different selection |
| Modes.SwitchingDesktopsLeavesTraces | src/plugins/select-basic.c:238-317 | in every catalogue the program can build a first desktop leaves no trace after a second if and only if they are the same |
| Modes.ChoosingAgainLeavesTraces | src/plugins/select-intermediate.c:445-507 | in every catalogue the program can build a first choice of intermediate mode leaves no trace after a second if and only if they are the same or the first is GNOME or XFCE |
| Modes.IntermediateCategoryFlags | src/plugins/select-intermediate.c:445-507 | the flag of every category after intermediate mode, whatever the catalogue |
| Modes.IntermediatePackageFlags | src/plugins/select-intermediate.c:445-507 | intermediate mode selects exactly the packages of its choice and touches no other package |
| Modes.KdePackFollowsDesktop | src/plugins/select-basic.c:243-345 | entering the page and leaving it in basic mode: KDE's language pack is selected with KDE, deselected with any other desktop, and only for English left as it was |
| Modes.LastToggleDecides | src/plugins/select-intermediate.c:94-271 | only the last state of a group box matters |
| Modes.GroupWrites | src/plugins/select-intermediate.c:94-271 | a box writes exactly its own categories, language packs and applications, all with its state |
| Modes.GroupByField | src/plugins/select-intermediate.c:94-271 | after a box is toggled every flag it writes is the box's, and every other one as it was |
| Modes.FixWrites | src/plugins/select-basic.c:323-345 | on entering the page six packs of the user's language, and no others, are switched off, and none for English |
| Modes.OneBoxIsDead | src/plugins/select-intermediate.c:354-433 | of the twelve boxes exactly one changes nothing in any catalogue when it is checked |
| SelectLists.SetCatCell | src/plugins/select-intermediate.c:38-49 | overwriting cell 3i+2 of the flat list changes the flag of category i and no other part of any row |
| SelectLists.SetPkgCell | src/plugins/select-expert.c:83-114 | overwriting cell 4j+3 changes the flag of package j and no other part of any row |
| SelectLists.FlatCatCells | src/plugins/select.c:179-209 | three cells a category: name, size, flag |
| SelectLists.FlatPkgCells | src/plugins/select.c:91-149 | four cells a package: name, size, description, flag |
| SelectLists.SelectCatByField | src/plugins/select-intermediate.c:38-49 | one call changes the flag of the first category of the name and nothing else |
| SelectLists.SelectAllByField | src/plugins/select-intermediate.c:52-71 | one call changes the flags of the first list of the category, all but those under the name left out, and nothing else |
| SelectLists.SelectFileByField | src/plugins/select-intermediate.c:74-91 | one call changes the flag of the first package of the name on the first list of the category and nothing else |
| SelectLists.SelectAbsent | src/plugins/select-intermediate.c:38-91 | a name that is not there changes nothing |
| SelectLists.ExpertByField | src/plugins/select-expert.c:47-242 | the three writes of expert mode by position: one category, one package, one whole list |
| SelectLists.Catalogue.SelectCat | src/plugins/select-intermediate.c:38-49 | the loop over the flat list is the write of one named category |
| SelectLists.Catalogue.SelectAllFiles | src/plugins/select-intermediate.c:52-71 | the loop is the write of a whole list but one name |
| SelectLists.Catalogue.SelectFile | src/plugins/select-intermediate.c:74-91 | the loop is the write of the first package of that name |
| SelectLists.Catalogue.FixedToggledCat | src/plugins/select-expert.c:47-80 | the toggled row's category, and no other, takes the opposite of the flag shown |
| SelectLists.Catalogue.FixedToggledPack | src/plugins/select-expert.c:83-114 | the toggled row's package, and no other, takes the opposite of the flag shown |
| SelectLists.Catalogue.SelectionClicked | src/plugins/select-expert.c:220-242 | every package of the list on show, and no other cell, takes the chosen flag |
| SelectLists.Catalogue.ConfigureDesktopBasic | src/plugins/select-basic.c:149-321 | the calls on the flat lists make exactly the sequence of writes the laws are about |
| SelectLists.Catalogue.FixLocales | src/plugins/select-basic.c:323-345 | on entering the page the calls switch off six language packs unless the language is English |
| SelectLists.Catalogue.ConfigureDesktopIntermediate | src/plugins/select-intermediate.c:445-507 | the calls of intermediate mode on the flat lists make exactly the sequence of writes its laws are about |
| SelectLists.Catalogue.GroupChanged | src/plugins/select-intermediate.c:94-271 | a toggled group box makes exactly the writes of its label, on the flat lists |
| SelectLists.CollectTargets | src/plugins/select.c:467-480 | the nested loops over the flat lists add the flagged packages of the flagged categories, in list order |
| SelectLists.TargetsExactly | src/plugins/select.c:467-480 | a package is a target if and only if it is flagged on the list of some flagged category |
| SelectLists.TargetsInOrder | src/plugins/select.c:467-480 | targets come category by category and package by package, none from a category that is not flagged |
| SelectLists.StoreResolved | src/plugins/select.c:500-526 | the package list is stored, in transaction order, exactly when unpacked and downloaded packages together fit; the download size is stored either way and no other key changes |
| SelectLists.SumsByField | src/plugins/select.c:500-511 | the two sums are those of the unpacked and of the download sizes, and a stored name is name, dash, version |
| WifiScan.EncryptionReadsAsOn | src/plugins/netconf.c:122-213 | every line read as an encryption line says encrypted, which is right if and only if the text after the label says on |
| WifiScan.OffReadsAsOn | src/plugins/netconf.c:122-213 | the line that says off is read as encrypted |
| WifiScan.VariantsAgree | src/plugins/configsource-network.c:134-228 | on every scan the filtering variant returns the other variant's access points without the unnamed ones, and fails on the same scans |
| WifiScan.SplitsAtAddress | src/plugins/configsource-network.c:154-222 | a scan splits at any address line: the records of the whole are those of the parts, joined |
| WifiScan.LastUpdateWins | src/plugins/configsource-network.c:168-216 | of several values for a field only the last counts, wherever the others stand |
| WifiScan.OneRecord | src/plugins/configsource-network.c:154-222 | an address line and any lines up to the next address, ignored ones included, make one record: the address with the last value of each field; a line without its delimiter is the only thing that spoils it |
| WifiScan.ReadsAddress | src/plugins/netconf.c:143-153 | the text behind the first address label, up to the end of the line, is the address, whatever else the line says |
| WifiScan.ReadsEssid | src/plugins/netconf.c:155-159 | the text between the quotes is the name |
| WifiScan.ReadsProtocol | src/plugins/netconf.c:161-165 | the text behind the protocol label is the protocol |
| WifiScan.ReadsChannel | src/plugins/netconf.c:175-179 | the number behind the channel label is the channel |
| WifiScan.ReadsMode | src/plugins/netconf.c:181-185 | the text behind the mode label is the mode |
| WifiScan.ReadsQuality | src/plugins/netconf.c:187-191 | the number before the slash is the quality |
| WifiScan.ReadsEncMode | src/plugins/netconf.c:193-197 | the text of an information element that is not unknown is the encryption mode |
| WifiScan.ReadsCypher | src/plugins/netconf.c:199-203 | the text behind the group cipher label is the cipher |
| WifiScan.ReadsNothing | src/plugins/netconf.c:143-207 | a line without any label, or with an unknown information element alone, says nothing |
| WifiScan.NameCutShort | src/plugins/netconf.c:143-165 | a line of address, name or protocol without its delimiter is a fault |
| WifiScan.ChannelCutShort | src/plugins/netconf.c:175-191 | so is one of channel, mode or quality |
| WifiScan.CipherCutShort | src/plugins/netconf.c:193-203 | and one of the two ciphers |
| WifiScan.FieldsFilled | src/plugins/netconf.c:143-207 | each kind of line fills its own field of the record and no other; a new address starts with all of them unset |
| WifiScan.RecordByField | src/plugins/netconf.c:143-207 | the lines act one after the other, and none of them changes the address |
| WifiScan.BeforeTheFirstAddress | src/plugins/netconf.c:143-207 | without an address there is no access point, and any line with a label is a fault |
| WifiScan.NamedExactly | src/plugins/configsource-network.c:154-222 | the variant keeps exactly the access points with a name of one character or more |
| WifiScan.ListEntryPoints | src/plugins/netconf.c:143-207 | the loop over the lines collects every access point |
| WifiScan.ListNamedEntryPoints | src/plugins/configsource-network.c:154-222 | the loop of the variant collects the named ones of the other's result |
| Interfaces.DelLeavesNone | src/plugins/netconf.c:736-741 | the loop that skips after each removal deletes every match if and only if no two stand side by side |
| Interfaces.DelIsFilter | src/plugins/netconf.c:736-741 | when no two matches stand side by side the loop leaves exactly the other names, in order |
| Interfaces.AddKeepsDistinct | src/plugins/netconf.c:665-689 | adding keeps the names distinct if and only if nothing is added, or the name fits its field, or its cut form is new |
| Interfaces.AddThenDel | src/plugins/netconf.c:665-741 | configuring an interface, for the first time or again, puts it last and keeps the others in order; deleting it then gives the list without it |
| Interfaces.AddByAnswer | src/plugins/netconf.c:645-722 | an interface kept when the user does not want it again, dropped when its reconfiguration is cancelled or is the loopback, and otherwise moved to the end |
| Interfaces.StoredByLength | src/plugins/netconf.c:665-689 | names of up to fifteen characters are stored whole, longer ones cut to fifteen |
| Interfaces.SessionKeepsDistinct | src/plugins/netconf.c:645-746 | over any sequence of adds and deletes of names that fit, the names stay distinct and a delete removes exactly its interface |
| Interfaces.NetPage.AddInterface | src/plugins/netconf.c:645-722 | the list after adding, reconfiguring, refusing or cancelling, and the value returned |
| Interfaces.NetPage.DelInterface | src/plugins/netconf.c:724-746 | the loop that removes from the list it walks leaves what the skipping specification says |

## Left out

- GTK, libparted, libblkid, libfwnetconfig, libfwtime and libpacman: their replies are parameters, and dependency
  resolution and downloading are theirs.
- PartPage.StepKeepsInvariant: a detection that finds a disk's list is followed by showing a device. The program does
  not do so on a second visit to a page that had found none, when the first device was selected already and a
  partition table has appeared in the meantime without gparted; the view is then stale.
- Directories.CommandLeadsThere: without symbolic links, and for mount points that the shell takes as one word.
- Memory: freed records are not reused. A stale root pointer refers to a dead record, as it does in C until the
  allocator hands out that address again. A C string holds no NUL character.
- Failures to open a file, `findmount`, `mkfss` and mount commands beyond their result: a probe, a flag, a trace.
- PartDisk.ListParts: the option to leave out swap partitions, which no caller sets.
- PartDisk.DiskPage.SetFormatPart: needs a selected row, because without one the program passes an uninitialised
  name.
- PartDisk.DiskPage.SetRootPart: a view longer than the list cannot occur while the invariant holds, so a selected
  row is one of both.
- Plugins.WizardOrderIsFixed: the table lists the thirteen pages of the wizard; `asklang` runs before it and is
  represented by the keys it stores. Bodies of plugins other than those listed above count by their keys only.
- Wizard.EveryCallbackFindsItsKeys: speaks of plugins that store their keys when they succeed, and of a last plugin
  that does not skip.
- Wizard.Controller.PluginNext: the active plugin is its index in the sorted list, where the program looks up the
  index of a pointer each time.
- Install.InstallPkgs: the passes from the retry label come from a finite script; when it ends, the transaction
  cannot be initialised. An endless series of retries is not modelled.
- Install.InstallPkgsDiscs: a disc is the set of packages it holds; ejecting and mounting are left out.
- Progress.TotalIsExact: counts whole files; rates, percentages and their floating point are left out.
- Mirrors.UpdateConfig: the flat list of alternating URLs and countries is a list of pairs.
- Mirrors.ReadsBackWhatWasWritten: for the two repository names the program can store and an architecture without
  slash, space or newline.
- TimeZones.TimePage.Prerun: what the tree holds when a row has no name is not stated; the program stops there on a
  NULL pointer.
- Coordinates.ParsesExactly: over real numbers, where the program rounds to `float`, and for numbers that fit an
  `int`.
- Coordinates.ParseLatLongLoop: returns nothing for a string of less than two characters, where the program reads
  past the end.
- Coordinates.InsideTheMap: over real numbers; the bounds, not the claim about the edges, are also proved for any
  rounding, in `InsideTheMapRounded`.
- Finding the clicked zone on the map (`affiche_dessin`, `resize_cb`) only draws.
- SelectLists.StoreResolved: the library failures that end `run` before the packages are resolved are left out.
- SelectLists.Catalogue.FixedToggledPack: the view's own copy of the flag is the parameter `fixed`.
- `getcat` and `group2pkgs`: the catalogue they build is arbitrary.
- WifiScan.ListEntryPoints: the lines are those `iwlist` prints; running it is left out.
- Interfaces.NetPage.AddInterface: what the dialogs add to the record besides its name is left out.
- Shell scripts, data files and translations.
