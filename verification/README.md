# TalOS kernel model

A Dafny model of the parts of the TalOS IA-32 kernel that carry state or arithmetic worth
proving, and proofs about it. Where the source updates memory step by step, the model does
too (classes, arrays, loops); each such method is proved against a specification function
or state machine, and the main results are lemmas about those.

| files | part of the kernel |
|---|---|
| `Paths.dfy` | path strings: `strtok_r`, `strncpy`, `strncmp`, file name and parent path |
| `FsModel.dfy`, `FsOps.dfy`, `FsDelete.dfy`, `FsRun.dfy`, `RamFs.dfy` | RAM file system: node memory, tree shape, path resolution, creation, deletion, runs, and the code itself |
| `Calendar.dfy` | `ts_to_date`, weekday, day of year, RTC date to timestamp |
| `Numerals.dfy`, `Printf.dfy`, `PrintfMeaning.dfy` | `ulitoa`, `litoa`, `atou`, the format interpreter, and what its output says |
| `Paging.dfy` | page directory and page tables against a flat page map |
| `Pci.dfy`, `PciNames.dfy` | PCI enumeration and the names of the directories it creates |
| `Spinlock.dfy`, `ApBoot.dfy` | the lock and the start of the application processors as step systems |
| `SysTime.dfy`, `Timers.dfy` | tick counter with drift correction, timestamp, software timers |
| `Basics.dfy`, `Arith.dfy` | optional values, C strings, 32-bit arithmetic and other facts shared by the others |

`dafny verify dfyconfig.toml` checks the whole project.

## Main results

- **File system.** Every state of every run of init, mkDir, newRegFile and deleteNode calls
  from boot on, once mounted, is a finite tree with `.` and `..` in place, unique names and
  distinct inode numbers (`FsRun.RunInv`). Creation succeeds exactly when there is memory,
  the name is permitted, its directory is one and the new path leads nowhere; it adds one
  path and keeps all others. A call that fails changes no path, although `ramfs_mkDir` leaks
  a block exactly when its third allocation fails.
  Deletion frees exactly the subtree when the node has no later sibling, and otherwise
  leaves a pointer to freed memory behind (`FsDelete.DeleteKeepsTreeIff`). Dropping `.` or
  `x/..` from a path does not change where it leads.
- **Parent paths.** `fs_getParentPath` is right exactly for the paths that do not end in
  "//" (`Paths.ParentPathTokens`).
- **Calendar.** `ts_to_date` inverts a calendar defined by counting years and months, for
  all day numbers up to 212302002 and no others (`Calendar.DateOfDayCorrectIff`);
  `RTC_DateToTimestamp` is the true second count modulo 2^32; Zeller's congruence agrees
  with counting.
- **Printing.** `gen_printf` with a bound writes exactly the prefix of the unbounded output,
  in a buffer that may be smaller than the bound, as it is for `sprintf`. The output of a
  numeric directive with any flags is a field whose numeral reads back as the argument
  (`PrintfMeaning.NumberPrinted`).
- **Paging.** After `InitPaging` and any sequence of map and unmap calls the two-level walk
  equals the flat map after the corresponding range updates. In bytes: the processor finds
  every byte of a mapped range at its place, and no page that the range does not reach
  changes (`Paging.MapRangeBytes`, `Paging.MappedTranslates`). The range begins at the page
  of the address, so the bytes that a caller names are all reached exactly under the
  condition of `Paging.RequestReachedIff`.
- **PCI.** Over any forest of buses below 100 the scan makes one directory for every
  reachable function and no other. On bus 100 and above the printed name is longer than its
  buffer; the scan stays inside its buffers exactly when no function is reached there
  (`Pci.ScanFitsIff`). What is reachable is also stated in vendor, header and class values
  alone (`Pci.Enumerated`).
- **Concurrency and time.** Mutual exclusion for any number of cores, and from every state
  of every run a way of at most five steps on which any one core gets the lock. The start
  protocol of the application processors, whose stacks are disjoint exactly unless both
  allocations failed (`ApBoot.StacksApartIff`), which happens in a run on every machine with
  three cores or more (`ApBoot.StacksCollide`). For time, the closed form and drift bounds of
  the tick counter, the exact timestamp at 1000 Hz, and exact timer expiry.

## Where code and documentation differ

- The comments in `kernel/include/libk/time.h:18-21` give 0-based months, Sunday = 0 and
  0-based days of the year. The code uses months from 1, Monday = 1 and 1 January = 1; the
  model follows the code.
- `%s` ignores its precision and, when the string is not shorter than the width, prints the
  full width of spaces in front of it; zero flags print one zero each, not up to the width.
  The model follows the code.
- `ramfs_mkDir` on a parent path that names a symbolic link or a regular file dereferences
  NULL. The model has this as the outcome `Fault`, and says exactly when it occurs.
- `strncmp` compares one character more than its bound, where section 7.24.4.4 of ISO C11
  has at most n. The model follows the code.
- A second `ramfs_init` gives the root a new inode number and leaks two links. The model has
  it as a call like any other.
- With a precision, a number that has more digits than it asks for is padded as if it had
  only those, so the field comes out wider than its width (`PrintfMeaning.FieldWidthIff`).
- `mem_map`, `mem_unmap` and `is_mapped` with a size above 2^32 - 4096 treat no page at all
  and report success (`Paging.PageCountRounds`).
- `InitAPs` tests `AP_Tables` where it should test the stack it has just allocated, and
  starts a core without a stack.
- `fs_getFileName` returns a pointer into its own stack frame; the model lets the caller
  read the string that was there.

## Model

| member | source | states |
|---|---|---|
| `Paths.TokensShape` | kernel/src/libk/string.c:56-72 | every token is non-empty, slash-free and NUL-free |
| `Paths.TokensJoin` | kernel/src/libk/string.c:56-72 | a slash separates: the tokens of "a/b" are those of a followed by those of b |
| `Paths.TokensOfName` | kernel/src/libk/string.c:56-72 | a slash-free non-empty string is its own only token |
| `Paths.SkipDelimiters` | kernel/src/libk/string.c:56-57 | moving past leading delimiters keeps the tokens |
| `Paths.TokenLength` | kernel/src/libk/string.c:59-61 | the count is the length of the maximal run |
| `Paths.CutToken` | kernel/src/libk/string.c:63-70 | the token is the first run, cut off in place; what is saved holds exactly the other runs |
| `Paths.Strtok` | kernel/src/libk/string.c:42-74 | successive calls yield the maximal non-slash runs in order and NULL when there are none left |
| `Paths.Strncpy` | kernel/src/libk/string.c:4-13 | a source that fits is copied with its NUL |
| `Paths.Strncmp` | kernel/src/libk/string.c:31-40 | zero exactly when the first n + 1 characters agree, so for a string of at most n characters exactly when both are equal |
| `Paths.CheckFileName` | kernel/src/coresys/vfs.c:201-230 | accepts exactly the names other than `.` and `..` that hold no slash |
| `Paths.GetFileName` | kernel/src/coresys/vfs.c:151-171 | the file name is the last token, NULL when there is none |
| `Paths.LastToken` | kernel/src/coresys/vfs.c:164-170 | the tokenising loop ends with the last token |
| `Paths.LastTokenIsSuffix` | kernel/src/coresys/vfs.c:190-192 | a path that does not end in a slash ends in its last token |
| `Paths.NameShorterThanPath` | kernel/src/coresys/vfs.c:190-191 | the last name takes up the whole path exactly when the path holds no slash |
| `Paths.ParentPathTokens` | kernel/src/coresys/vfs.c:173-199 | the parent path holds all tokens but the last if and only if the path does not end in "//"; it is absolute exactly when the path is |
| `Paths.GetParentPath` | kernel/src/coresys/vfs.c:173-199 | refuses exactly paths without a token; the result is right exactly without a trailing "//" |
| `FsModel.FindSpec` | kernel/src/coresys/ramfs.c:432-443 | the lookup returns an entry of that name, and NULL exactly when there is none |
| `FsModel.SymlinkTarget` | kernel/src/coresys/vfs.c:73-78 | a symbolic link of the tree leads to a directory in one step |
| `FsModel.WalkConcat` | kernel/src/coresys/vfs.c:45-48 | resolving a concatenation is resolving its parts in turn |
| `FsModel.LookupDot` | kernel/src/coresys/ramfs.c:202-221 | `.` leads to the directory itself |
| `FsModel.LookupDotDot` | kernel/src/coresys/ramfs.c:202-221 | `..` leads to the parent, at the root to the root |
| `FsModel.DropDot` | kernel/src/coresys/vfs.c:23-53 | dropping a `.` component keeps where a path leads |
| `FsModel.DropDotDot` | kernel/src/coresys/vfs.c:23-53 | dropping `x/..` with x an ordinary name keeps where a path leads |
| `FsModel.DropDotInPath` | kernel/src/coresys/vfs.c:23-53 | the same for path strings "p/./q" and "p/q" |
| `FsModel.DropDotDotInPath` | kernel/src/coresys/vfs.c:23-53 | the same for path strings "p/x/../q" and "p/q" |
| `FsModel.ParentThenName` | kernel/src/coresys/vfs.c:151-199 | resolving the parent path and looking the file name up there is resolving the path |
| `FsOps.AddFileWf` | kernel/src/coresys/ramfs.c:263-286 | hooking a new file behind the last entry keeps the tree well formed |
| `FsOps.AddDirWf` | kernel/src/coresys/ramfs.c:179-223 | hooking a new directory with its two links keeps the tree well formed |
| `FsOps.LookupExtends` | kernel/src/coresys/ramfs.c:422-444 | one more last entry changes a lookup only for its own directory and name |
| `FsOps.WalkExtends` | kernel/src/coresys/ramfs.c:223-229 | every path that resolved resolves to the same node; a path that resolves only now passes through the new entry |
| `FsOps.NewPathResolves` | kernel/src/coresys/ramfs.c:223-229 | the directory's path plus the new name leads to the new node, and led nowhere before |
| `FsDelete.ForestSplit` | kernel/src/coresys/ramfs.c:93-108 | what the recursive freeing visits is the node, its children's subtrees and its later siblings' subtrees, pairwise disjoint |
| `FsDelete.UnderUnique` | kernel/src/coresys/ramfs.c:93-108 | no node lies below two nodes of equal depth |
| `FsDelete.RemovedWf` | kernel/src/coresys/ramfs.c:129-148 | without its last entry and everything below it the tree is well formed |
| `FsDelete.RemovedExtends` | kernel/src/coresys/ramfs.c:129-148 | deletion is the inverse of adding an entry and frees exactly its subtree |
| `FsDelete.NextAllocated` | kernel/src/coresys/ramfs.c:129-148 | in a well-formed tree a sibling pointer is NULL or allocated |
| `FsDelete.ChainDetermined` | kernel/src/coresys/ramfs.c:129-148 | memory determines a sibling list as far as its pointers stay the same |
| `FsDelete.PathKept` | kernel/src/coresys/ramfs.c:129-148 | every tree that memory may form after a deletion has the directories from the root down to the parent |
| `FsDelete.DeleteKeepsTreeIff` | kernel/src/coresys/ramfs.c:100-104 | deletion leaves memory that forms a tree, of whatever shape, if and only if the node has no later sibling |
| `FsRun.InoCounts` | kernel/src/coresys/vfs.c:134-138 | inode numbers count up modulo 2^32 |
| `FsRun.InitInv` | kernel/src/coresys/ramfs.c:44-91 | init keeps the tree and the inode numbers well formed, on a mounted system too |
| `FsRun.MkDirInv` | kernel/src/coresys/ramfs.c:151-236 | mkDir keeps the tree and the inode numbers well formed, in every outcome but the NULL dereference |
| `FsRun.NewRegFileInv` | kernel/src/coresys/ramfs.c:238-297 | newRegFile keeps them too |
| `FsRun.DeleteInv` | kernel/src/coresys/ramfs.c:110-149 | deletion of an ordinary entry without a later sibling keeps them too |
| `FsRun.RunInv` | kernel/src/coresys/ramfs.c:44-297 | every state of every run of init, mkDir, newRegFile and deleteNode calls from boot is unmounted, or a well-formed tree, with distinct inode numbers below 2^32 creations |
| `FsRun.InitPaths` | kernel/src/coresys/ramfs.c:44-91 | the first success makes a root with its two links and nothing else; every other call keeps all paths, and on a mounted system a success leaks exactly two blocks |
| `FsRun.NewRegFileOutcome` | kernel/src/coresys/ramfs.c:238-297 | which outcome there is, by name, paths, blocks and node type before the call: done exactly for a permitted name under a directory where the new path led nowhere, and then the new path leads to a new regular file |
| `FsRun.MkDirOutcome` | kernel/src/coresys/ramfs.c:151-236 | the same for directories, which need three blocks and hold their two links |
| `FsRun.DeleteOutcome` | kernel/src/coresys/ramfs.c:110-149 | refused exactly when the path leads nowhere, done exactly when the parent path leads to a directory itself, NULL dereference exactly when it leads to a link |
| `FsRun.MkDirPaths` | kernel/src/coresys/ramfs.c:151-236 | success makes the new path resolve and keeps every path; failure changes the meaning of no path |
| `FsRun.NewRegFilePaths` | kernel/src/coresys/ramfs.c:238-297 | the same for regular files; failure changes nothing at all |
| `FsRun.DeletePaths` | kernel/src/coresys/ramfs.c:110-149 | exactly the subtree is freed, the order of the rest is kept, other paths keep their meaning and none gains one |
| `FsRun.DeletedPathGone` | kernel/src/coresys/ramfs.c:110-149 | the deleted path resolves no more |
| `FsRun.Recreated` | kernel/src/arch/IA32/pci.c:386-396 | a directory deleted and made again holds its two links only |
| `FsRun.DeleteFinds` | kernel/src/coresys/ramfs.c:115-146 | an ordinary name below a real directory is found among its parent's entries |
| `RamFs.FileSystem.constructor` | kernel/src/coresys/vfs.c:16-17 | at boot nothing is mounted and inode numbers start at 0 |
| `RamFs.FileSystem.AllocNode` | kernel/src/coresys/ramfs.c:17-25 | a zeroed fresh block, or NULL |
| `RamFs.FileSystem.DeallocNode` | kernel/src/coresys/ramfs.c:27-30 | only an allocated block is freed, and only that one |
| `RamFs.FileSystem.NewIno` | kernel/src/coresys/vfs.c:134-138 | returns the counter and advances it with wrap-around |
| `RamFs.FileSystem.GetSimlink` | kernel/src/coresys/vfs.c:55-71 | fills in a link node and touches nothing else |
| `RamFs.FileSystem.NodeFromSimlink` | kernel/src/coresys/vfs.c:73-78 | following links terminates at a node that is no link |
| `RamFs.FileSystem.FindChild` | kernel/src/coresys/ramfs.c:422-444 | walking the sibling list is looking the name up |
| `RamFs.FileSystem.FsFind` | kernel/src/coresys/vfs.c:126-132 | lookup behind a link, NULL for what is no directory |
| `RamFs.FileSystem.GetNode` | kernel/src/coresys/vfs.c:23-53 | the node is the fold of the lookup over the tokens of the path, from the root or from the current node |
| `RamFs.FileSystem.WalkTokens` | kernel/src/coresys/vfs.c:43-49 | the tokenising loop computes that fold |
| `RamFs.FileSystem.GetLastChild` | kernel/src/coresys/ramfs.c:32-38 | the last entry of a non-empty list |
| `RamFs.FileSystem.LinkHeader` | kernel/src/coresys/ramfs.c:217-221 | `.` and `..` become the two children, unless there are children |
| `RamFs.FileSystem.Init` | kernel/src/coresys/ramfs.c:44-91 | takes exactly the step of the state machine, every failure path and the call on a mounted system included |
| `RamFs.FileSystem.BuildRoot` | kernel/src/coresys/ramfs.c:65-90 | the links of the root; a failure frees what was allocated |
| `RamFs.FileSystem.Mount` | kernel/src/coresys/ramfs.c:77-83 | the links are linked in only under a root without children |
| `RamFs.FileSystem.MkDir` | kernel/src/coresys/ramfs.c:151-236 | takes exactly the step of the state machine, every failure path included |
| `RamFs.FileSystem.BuildHeader` | kernel/src/coresys/ramfs.c:202-233 | the clean-up frees only the block allocated last |
| `RamFs.FileSystem.NewRegFile` | kernel/src/coresys/ramfs.c:238-297 | takes exactly the step of the state machine |
| `RamFs.FileSystem.InterDelete` | kernel/src/coresys/ramfs.c:93-108 | frees each block of the subtree and of the later siblings' subtrees exactly once and terminates |
| `RamFs.FileSystem.Detach` | kernel/src/coresys/ramfs.c:129-146 | takes the node out of its parent's list, if it is there |
| `RamFs.FileSystem.FindPrevious` | kernel/src/coresys/ramfs.c:133-145 | finds the entry in front of the node |
| `RamFs.FileSystem.DeleteNode` | kernel/src/coresys/ramfs.c:110-149 | takes exactly the step of the state machine |
| `Calendar.DaysBeforeYearClosed` | kernel/src/arch/IA32/rtc.c:166-167 | counting leap years one by one has the closed form |
| `Calendar.DayNumberInjective` | kernel/src/libk/time.c:117-120 | different dates have different day numbers |
| `Calendar.RtcDaysCounts` | kernel/src/arch/IA32/rtc.c:159-171 | the day formula counts the days since 1 January 1970 |
| `Calendar.DateOfDayParts` | kernel/src/libk/time.c:97-115 | the intermediate values are year and day of year counted from 1 March |
| `Calendar.MonthOfDaySpec` | kernel/src/libk/time.c:102-103 | month and day come out in range and lead back to the day of the year |
| `Calendar.DateOfDayCorrect` | kernel/src/libk/time.c:97-120 | the date is valid and has the day number it came from |
| `Calendar.DateOfDayCorrectIff` | kernel/src/libk/time.c:97-120 | it does so exactly up to day 212302002 |
| `Calendar.DecodeEncode` | kernel/src/libk/time.c:97-120 | decoding inverts encoding |
| `Calendar.ZellerCorrect` | kernel/src/libk/time.c:64-73 | Zeller's sum agrees with the day count modulo 7 |
| `Calendar.DayOfWeekCorrect` | kernel/src/libk/time.c:51-74 | the weekday is that of the day count, up to year 65535 |
| `Calendar.GetDayOfYear` | kernel/src/libk/time.c:28-49 | the days of the months in front plus the day |
| `Calendar.SumMonths` | kernel/src/libk/time.c:42-44 | the loop adds up the months in front |
| `Calendar.TsToDate` | kernel/src/libk/time.c:76-127 | NULL below 1; otherwise time of day, the one date with that day number, weekday and day of year |
| `Calendar.DateToTimestampWraps` | kernel/src/arch/IA32/rtc.c:145-179 | the timestamp is the true second count modulo 2^32 |
| `Calendar.DateToTimestampExactIff` | kernel/src/arch/IA32/rtc.c:145-179 | it is the true second count exactly when that fits 32 bits |
| `Calendar.ClockRoundTrip` | kernel/src/arch/IA32/rtc.c:145-179 | from the clock to a timestamp and back every field returns, up to 2106-02-07 06:28:15 |
| `Numerals.NumeralValue` | kernel/src/libk/itoa.c:24-41 | a numeral stands for its number, has no leading zero and only digits of the base |
| `Numerals.NumeralIsReversed` | kernel/src/libk/itoa.c:29-40 | the digits of the divide loop reversed are the numeral |
| `Numerals.ReverseBuffer` | kernel/src/libk/itoa.c:12-22 | reverses the characters in place and touches no other |
| `Numerals.FillDigits` | kernel/src/libk/itoa.c:29-39 | the divide loop writes the digits, least significant first |
| `Numerals.Ulitoa` | kernel/src/libk/itoa.c:24-60 | leaves the numeral of the input for every base from 2 to 32 |
| `Numerals.Litoa` | kernel/src/libk/itoa.c:62-71 | leaves the signed numeral, also of the most negative long |
| `Numerals.TableOfPowers` | kernel/src/libk/atoi.c:8-9 | the table holds the powers of ten |
| `Numerals.Atou` | kernel/src/libk/atoi.c:41-62 | the value of the leading digits modulo 2^32 |
| `Numerals.SumDigits` | kernel/src/libk/atoi.c:55-59 | digits times powers is the value, without leaving the table |
| `Numerals.AtouOfUlitoa` | kernel/src/libk/atoi.c:41-62 | `atou` reads back what `ulitoa` writes, for every 32-bit number |
| `Printf.PutBlock` | kernel/src/libk/printf.c:147-158 | a block is written as far as it fits in front of the NUL |
| `Printf.PutRepeated` | kernel/src/libk/printf.c:38-50 | a padding loop writes as far as it fits |
| `Printf.PrintNumber` | kernel/src/libk/printf.c:24-124 | writes the padded number as far as it fits |
| `Printf.CountSpaces` | kernel/src/libk/printf.c:52-63 | the number of spaces |
| `Printf.PrintDigits` | kernel/src/libk/printf.c:78-123 | sign, precision zeros and digits as far as they fit |
| `Printf.TextLength` | kernel/src/libk/printf.c:247-309 | every number fits its local buffer with its NUL |
| `Printf.NumberString` | kernel/src/libk/printf.c:294-309 | the buffer read up to its NUL is the numeral for the conversion |
| `Printf.ScanFlags` | kernel/src/libk/printf.c:164-185 | reads zero flags, width and precision |
| `Printf.PutString` | kernel/src/libk/printf.c:207-245 | writes the padded string as far as it fits |
| `Printf.PutDirective` | kernel/src/libk/printf.c:187-337 | writes what the directive prints as far as it fits and takes its arguments |
| `Printf.PutLiteral` | kernel/src/libk/printf.c:137-160 | a literal run is written up to the next percent sign, as far as it fits |
| `Printf.PutPiece` | kernel/src/libk/printf.c:134-337 | one round of the loop writes one piece of the unbounded output |
| `Printf.PrintLoop` | kernel/src/libk/printf.c:134-338 | the buffer holds the prefix of the unbounded output that fits |
| `Printf.GenPrintf` | kernel/src/libk/printf.c:126-346 | exactly min(L, n-1) characters of the unbounded output, then a NUL, nothing behind, and that count plus one as result, in any buffer that has room for that |
| `Printf.Snprintf` | kernel/src/libk/printf.c:368-377 | the output cut to the size of the buffer |
| `Printf.Sprintf` | kernel/src/libk/printf.c:357-366 | the whole output, when it is shorter than the buffer |
| `PrintfMeaning.NumberTextMeans` | kernel/src/libk/printf.c:247-309 | the text of a number reads back as the argument in the base and width of its conversion, without leading zeros |
| `PrintfMeaning.BodyMeans` | kernel/src/libk/printf.c:78-123 | the precision keeps sign and value and gives exactly max(digits, precision) digits |
| `PrintfMeaning.FieldWidthIff` | kernel/src/libk/printf.c:52-63 | the field is exactly as wide as asked for if and only if its zeros fit and the number is no longer than its precision |
| `PrintfMeaning.FlagsReadBack` | kernel/src/libk/printf.c:164-185 | zeros, width and precision are read as they were written |
| `PrintfMeaning.NumberPrinted` | kernel/src/libk/printf.c:187-337 | `%d`, `%i`, `%u`, `%x`, `%X` with any flags and `l` or `ll` print a field of at least the width, with at least the digits asked for, whose numeral reads back as the argument |
| `PrintfMeaning.BareNumberPrinted` | kernel/src/libk/printf.c:246-309 | without flags the output is the numeral itself |
| `PrintfMeaning.CharPrinted` | kernel/src/libk/printf.c:188-206 | `%c` prints its character |
| `PrintfMeaning.StringPrinted` | kernel/src/libk/printf.c:207-245 | `%s` prints spaces and its string, exactly as wide as asked for if and only if the string is shorter or there is no width |
| `PrintfMeaning.UnknownPrinted` | kernel/src/libk/printf.c:319-337 | a directive the code does not know prints as written, with the rest of the format |
| `PrintfMeaning.PlainText` | kernel/src/libk/printf.c:134-162 | text without a percent sign prints as it is |
| `PrintfMeaning.PercentSign` | kernel/src/libk/printf.c:136-162 | a doubled percent sign prints one |
| `Paging.SlotsApart` | kernel/src/arch/IA32/paging.c:109-116 | different pages have different table words |
| `Paging.WalkStore` | kernel/src/arch/IA32/paging.c:109-116 | writing one table word changes the translation of one page |
| `Paging.CheckedRangeIff` | kernel/src/arch/IA32/paging.c:98-108 | a range the check lets through has its tables if and only if the tables it overlooks are there |
| `Paging.CheckMissesSingleTable` | kernel/src/arch/IA32/paging.c:98-108 | the check passes a one-page range in an empty directory |
| `Paging.PageCountRounds` | kernel/src/arch/IA32/paging.c:81 | the page count is the size rounded up exactly as long as the rounding does not wrap, and zero otherwise |
| `Paging.ReachesIff` | kernel/src/arch/IA32/paging.c:109-113 | the pages of a range are those its bytes lie on |
| `Paging.RequestReachedIff` | kernel/src/arch/IA32/paging.c:80-81 | the bytes from the address on are all reached if and only if the offset in the page still fits the rounded size |
| `Paging.MapRangeBytes` | kernel/src/arch/IA32/paging.c:109-116 | overriding the range of pages maps every byte of it to its place, with the write and cache bits asked for, and changes no page it does not reach |
| `Paging.UnmapRangeBytes` | kernel/src/arch/IA32/paging.c:137-144 | removing the range of pages unmaps every byte of it and changes no page it does not reach |
| `Paging.FlatRunBytes` | kernel/src/arch/IA32/paging.c:73-145 | in a sequence of calls each does to the flat map what its bytes say |
| `Paging.TranslateIsFlat` | kernel/src/arch/IA32/paging.c:46-71 | the flat map is what the processor finds by bits 31-22, 21-12 and 11-0 of an address |
| `Paging.MappedTranslates` | kernel/src/arch/IA32/paging.c:109-116 | after a mapping the processor finds each byte of the range at its physical place |
| `Paging.Mapper.IsMapped` | kernel/src/arch/IA32/paging.c:46-71 | true exactly when every byte of the range lies on a page with a translation |
| `Paging.Mapper.CheckTables` | kernel/src/arch/IA32/paging.c:98-108 | refuses exactly when a table before the last one is absent |
| `Paging.Mapper.MemMap` | kernel/src/arch/IA32/paging.c:73-126 | the flat map is overridden on the range, all other pages keep their translation; in bytes the reported size is the size rounded up to pages, every byte of the range is mapped with the flags asked for, and no page beyond changes |
| `Paging.Mapper.MapPages` | kernel/src/arch/IA32/paging.c:109-116 | the loop overrides the range |
| `Paging.Mapper.MemUnmap` | kernel/src/arch/IA32/paging.c:128-145 | the range is removed from the flat map, all other pages keep their translation; in bytes, no byte of the range stays mapped and no page beyond changes |
| `Paging.Mapper.PagesMapped` | kernel/src/arch/IA32/paging.c:54-68 | the loop looks at every page of the range |
| `Paging.Mapper.UnmapPages` | kernel/src/arch/IA32/paging.c:137-144 | the loop removes every page of the range |
| `Paging.Mapper.Run` | kernel/src/arch/IA32/paging.c:73-145 | after any sequence of calls the walk equals the flat map after the same range updates |
| `Paging.Mapper.PageMapping` | kernel/src/arch/IA32/paging.c:37-44 | consecutive entries, nothing else written |
| `Paging.Mapper.FillDirectory` | kernel/src/arch/IA32/paging.c:233-246 | consecutive tables are entered, nothing else written |
| `Paging.Mapper.InitTables` | kernel/src/arch/IA32/paging.c:206-228 | the kernel tables hold the three parts of the kernel |
| `Paging.InitValid` | kernel/src/arch/IA32/paging.c:233-246 | the directory leads to tables that do not overlap |
| `Paging.Mapper.InitPaging` | kernel/src/arch/IA32/paging.c:197-249 | the kernel is mapped onto itself, its read-only area without the write flag, and nothing else is mapped |
| `Paging.KernelMapBytes` | kernel/src/arch/IA32/paging.c:216-228 | in bytes: which addresses are mapped at boot, each onto itself, and which are writable |
| `Pci.ScanSeqExact` | kernel/src/arch/IA32/pci.c:323-417 | the scan order lists every reachable function exactly once and nothing else |
| `Pci.UptoSound` | kernel/src/arch/IA32/pci.c:346-378 | what a bus scan visits is visible and behind the bus |
| `Pci.BusComplete` | kernel/src/arch/IA32/pci.c:369-378 | every visible function behind a bus is visited |
| `Pci.RoutesNest` | kernel/src/arch/IA32/pci.c:336-341 | of two routes to one bus the shorter is the end of the longer |
| `Pci.UptoDistinct` | kernel/src/arch/IA32/pci.c:346-378 | a bus scan visits nothing twice |
| `Pci.HeaderDecides` | kernel/src/arch/IA32/pci.c:346-367 | functions 1 to 7 are there exactly with function 0, bit 7 of its header type and a vendor of their own |
| `Pci.RootOpens` | kernel/src/arch/IA32/pci.c:398-415 | on a root bus every device with a vendor is there |
| `Pci.BridgeOpens` | kernel/src/arch/IA32/pci.c:336-341 | behind a function of class 6, subclass 4 every device with a vendor is there |
| `Pci.OnlyBehindBridges` | kernel/src/arch/IA32/pci.c:336-341 | whatever is not on a root bus is behind such a bridge |
| `Pci.ReachableEnumerated` | kernel/src/arch/IA32/pci.c:323-417 | the reachable functions are the ones these rules list |
| `Pci.Scanner.AddNode` | kernel/src/arch/IA32/pci.c:150-166 | on a bus below 100 a function is recorded under its name unless it was before |
| `Pci.Scanner.ScanFunction` | kernel/src/arch/IA32/pci.c:323-344 | records the function and, for a bridge, everything behind it |
| `Pci.Scanner.ScanDevice` | kernel/src/arch/IA32/pci.c:346-367 | records the functions that function 0 and the multifunction bit allow |
| `Pci.Scanner.ScanBus` | kernel/src/arch/IA32/pci.c:369-378 | records the devices in order |
| `Pci.Scanner.Scan` | kernel/src/arch/IA32/pci.c:398-416 | over a forest of buses below 100 it succeeds, and its directories bear the names of the reachable functions, each exactly once; in register values: all devices with a vendor on root buses and behind listed bridges, and of each what function 0 allows |
| `Pci.Scanner.ScanRoots` | kernel/src/arch/IA32/pci.c:404-415 | the same for several host controllers |
| `Pci.ScanFitsIff` | kernel/src/arch/IA32/pci.c:151-159 | the scan stays inside its name and path buffers if and only if no function is reached on bus 100 or above |
| `Pci.DeepBus` | kernel/src/arch/IA32/pci.c:151-153 | a machine on which it does not |
| `PciNames.FormatHasLayout` | kernel/src/arch/IA32/pci.c:153 | the name format is three `%02u` behind fixed text |
| `PciNames.NamePrinted` | kernel/src/arch/IA32/pci.c:150-153 | what `sprintf` prints for a function is its name |
| `PciNames.NameFitsIff` | kernel/src/arch/IA32/pci.c:151-159 | name and path fit their buffers with the NUL exactly on buses 0 to 99 |
| `PciNames.DeviceName` | kernel/src/arch/IA32/pci.c:151-153 | the buffer holds the name |
| `PciNames.PathPrinted` | kernel/src/arch/IA32/pci.c:159 | what `sprintf` prints for two strings is the path |
| `PciNames.DevicePath` | kernel/src/arch/IA32/pci.c:152-159 | the buffer holds the path |
| `PciNames.NameInjective` | kernel/src/arch/IA32/pci.c:150-157 | different functions have different directory names |
| `Spinlock.SetLock` | kernel/src/arch/IA32/atomic.S:12 | sets the lock bit and no other |
| `Spinlock.ClearLock` | kernel/src/coresys/spinlock.c:26 | clears the lock bit and no other |
| `Spinlock.StepInv` | kernel/src/arch/IA32/atomic.S:6-21 | every step keeps: one holder at most, bit set exactly then, a release in progress has read the current word |
| `Spinlock.RunInv` | kernel/src/coresys/spinlock.c:10-27 | mutual exclusion in every state of every run, and the other 31 bits never change |
| `Spinlock.FreeTheLock` | kernel/src/coresys/spinlock.c:24-27 | the holder frees the lock within two of its steps, and waiting cores still wait |
| `Spinlock.TakeTheLock` | kernel/src/arch/IA32/atomic.S:11-21 | a free lock is taken by a waiting core within two of its steps |
| `Spinlock.WaitingCoreGetsLock` | kernel/src/coresys/spinlock.c:10-27 | a waiting core can hold the lock after at most four more steps |
| `Spinlock.LockAvailable` | kernel/src/coresys/spinlock.c:10-27 | every run can be continued by at most five steps, of the holder and of any one core, so that this core holds the lock; four if it waits already, none if it holds it |
| `Spinlock.StepRefines` | kernel/src/coresys/spinlock.c:10-27 | every step is a step of an atomic mutex |
| `ApBoot.BspStepInv` | kernel/src/arch/IA32/sysinit.c:250-271 | the boot processor keeps the start protocol |
| `ApBoot.ApStepInv` | kernel/src/arch/IA32/tramAP.S:41-70 | an application processor keeps the start protocol |
| `ApBoot.RunInv` | kernel/src/arch/IA32/sysinit.c:233-275 | every state of every interleaving keeps it |
| `ApBoot.StartMovesForward` | kernel/src/arch/IA32/sysinit.c:262-263 | a start state moves on by at most one place per step |
| `ApBoot.StartMonotoneInRun` | kernel/src/arch/IA32/sysinit.c:233-275 | along a run no start state goes back |
| `ApBoot.InMainSafe` | kernel/src/arch/IA32/tramAP.S:54-70 | each core in AP_main runs on its own stored stack top after WAITING was written |
| `ApBoot.StackLoaded` | kernel/src/arch/IA32/tramAP.S:54-57 | a core that has loaded its stack pointer, polling or started, has the top of its own block |
| `ApBoot.StacksApartIff` | kernel/src/arch/IA32/sysinit.c:253-260 | two stacks are disjoint if and only if not both allocations failed, in every state of every run, and share their top otherwise |
| `ApBoot.StacksCollide` | kernel/src/arch/IA32/sysinit.c:253-260 | on every machine with three cores or more a run ends with all application processors in AP_main on one stack |
| `ApBoot.StartedAreInMain` | kernel/src/arch/IA32/tramAP.S:68-70 | the records marked started are the boot processor's and those of the processors in AP_main |
| `ApBoot.FinalCount` | kernel/src/arch/IA32/sysinit.c:267-271 | the count lies between the processors in AP_main when counting begins and when it is done, the boot processor included |
| `ApBoot.CountingBegins` | kernel/src/arch/IA32/sysinit.c:267 | every run with a final count has a state in which counting begins |
| `ApBoot.AllStart` | kernel/src/arch/IA32/sysinit.c:233-275 | whatever blocks the allocator answers, some run starts every core on its block and ends with the count of all cores |
| `SysTime.Parameters` | kernel/src/arch/IA32/systime.c:25-28 | the correction of every supported frequency lies between PIT_CLOCK/R - 2 and PIT_CLOCK/R - 1 |
| `SysTime.Clock.SetFrequency` | kernel/src/arch/IA32/systime.c:53-58 | reload and increment are set and the count starts anew |
| `SysTime.Clock.SysTick` | kernel/src/arch/IA32/systime.c:33-44 | the counter keeps its closed form inc * (n - n / reload) and the callback sees it |
| `SysTime.CounterStep` | kernel/src/arch/IA32/systime.c:34-40 | the closed form grows by the increment except on every reload-th tick |
| `SysTime.Drift` | kernel/src/arch/IA32/systime.c:25-44 | never a full increment ahead of PIT time, and a lag below inc * n * 2R / (reload * PIT_CLOCK) |
| `SysTime.StampsClosed` | kernel/src/coresys/timer.c:39-44 | at 1000 Hz the timestamp has advanced by counter / 1000 + n / 659100 |
| `SysTime.Clock.RunDefault` | kernel/src/arch/IA32/systime.c:33-44 | the same for a run of ticks with the callback installed |
| `Timers.ArmedTimer` | kernel/src/coresys/timer.c:54-67 | an armed timer counts down with the ticks alone, whatever happens to the others |
| `Timers.Arms` | kernel/src/coresys/timer.c:101-107 | SetTimerStart arms exactly when the low 32 bits are not zero |
| `Timers.AcceptedCalls` | kernel/src/coresys/timer.c:77-107 | which calls go through and what they leave: a running timer refuses all three, an expired one can be set again |
| `Timers.RunningIsUndisturbed` | kernel/src/coresys/timer.c:77-107 | until it expires no events disturb a running timer, calls on itself included |
| `Timers.TimerExact` | kernel/src/coresys/timer.c:54-107 | after k ticks max(0, c - k * inc) is left, and expiry comes at tick ceil(c / inc) |
| `Timers.RefusedUntilExpiry` | kernel/src/coresys/timer.c:77-107 | every call on an armed timer is refused before tick ceil(c / inc), and a new count is taken from then on |
| `Timers.SliceBounds` | kernel/src/coresys/timer.c:46-52 | the time slice stays between 1 and 20 |
| `Timers.SlicePeriod` | kernel/src/coresys/timer.c:46-52 | it reloads every 20 ms of ticks when the tick length divides 20 |
| `Timers.OsData.constructor` | kernel/src/coresys/timer.c:11-33 | all timers stopped, the slice full |
| `Timers.OsData.SysTickFun` | kernel/src/coresys/timer.c:35-68 | takes exactly the tick step, and adds a second at multiples of 1000 |
| `Timers.OsData.SetTimer` | kernel/src/coresys/timer.c:77-88 | takes exactly the set step, on one timer; accepted exactly unless the timer is running, and without effect otherwise |
| `Timers.OsData.StartTimer` | kernel/src/coresys/timer.c:90-99 | takes exactly the start step, on one timer; accepted exactly for a stopped timer with a count |
| `Timers.OsData.SetTimerStart` | kernel/src/coresys/timer.c:101-107 | takes exactly the set-and-start step, on one timer; accepted exactly for a count that is not zero in 32 bits on a timer that is not running |
| `Timers.OsData.TimerExpired` | kernel/src/coresys/timer.c:109-116 | for a timer armed with c and left alone since, true exactly from tick ceil(c / inc) on |

## Left out

- Initrd loading, `ramfs_addChild`, `ramfs_readdir`, file contents (`ramfs_read`, `ramfs_write`) and the device file system.
- The allocator: a call is told how many blocks it may have, and every block is at a fresh address.
- RamFs.FileSystem.GetNode: paths hold fewer than 255 characters, as the buffer demands.
- RamFs.FileSystem.DeleteNode: takes paths of fewer than 128 characters that hold a slash beside one at the end, because for others the source reads outside its buffers.
- Paths.GetParentPath: the same.
- Nodes are values in one map from addresses instead of Dafny objects, so that freed and leaked blocks can be told apart; in-place update is update of that map.
- Calendar.TsToDate: takes day numbers up to 212302002, because past them the month is out of range and the month table is read outside its bounds; `Calendar.DateOfDayCorrectIff` covers all of them. `asctime_r` is not modelled.
- Printf.GenPrintf: the console variant, the overflow exits for outputs beyond 4 GiB and the 32-bit wrap of lengths are not modelled; formats that C leaves undefined (missing arguments, `%l` at the end, fields of more than ten digits, precision INT_MAX) are excluded.
- Numerals.Atou: runs of more than ten digits, for which the source reads behind its table of powers.
- `atoi`, which multiplies by zero for every positive number.
- Paging.Mapper.MemMap: the range's tables must be present unless the check refuses, because a missed table is written at address 0; `paging_enable`, `set_page_table`, `unset_page_table` and `change_page_table_attributes` are not modelled.
- Paging.Mapper.InitPaging: the linker's addresses are parameters, page-aligned where the loops need it to stop.
- Pci.Scanner.Scan: starts behind the creation of `/sys/device/pci`, which `FsRun.Recreated` covers; buses of 100 and above are excluded, because the names overflow their buffers there.
- Pci.Scanner.AddNode: keeps the directory names instead of file system nodes; the files inside each directory and allocation failures are not modelled.
- The lock bit is the parity of the lock word and the other bits its half, instead of a bit vector.
- ApBoot: the heap is taken to lie above the first 8 KiB of memory; delays, the copy of the trampoline and the 8-bit width of the core count are not modelled; the boot processor is core 0.
- SysTime.Clock.SysTick: the 64-bit width of the counter and programming the PIT are not modelled; `Wait_ms`, `Wait_us` and `ReadTimeCounter` are left out.
- Timers: a call is one step between two ticks, so the window of `SetTimer` in which an expired timer is re-armed while still started is not modelled.
- Drivers, descriptor tables, ACPI, APIC, keyboard, serial and console code, and `kernel_main`: port I/O without an invariant to prove.
