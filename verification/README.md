# The Bacula catalog layer, verified

This project models the catalog layer of Bacula (`bacula/src/cats`) in Dafny and proves
properties of it. Tables are maps, sets and sequences; each SQL statement is the relation or
the update its text denotes; routines that change state are methods of classes, and their loops
carry invariants. Queries are stated over values, not over quoted text.

The main results, by module:

- **RestoreHistory** (with JobHistories, JobReferences, AccurateJobs and RecentVersions). For every
  Job table in which the good runs of a client and FileSet do not overlap (a run may start in the
  second in which an earlier one ended), with failed runs and other clients interleaved at will and
  with base jobs: if each run recorded its changes since the job that `bdb_find_job_start_time`
  names, every restore as of run n gives back what run n saw exactly when the accurate list as of
  run n is run n, its reference job, the reference of that, and so on back to a Full
  (`RestoreExact`). `TimesExact` and `ReferencesExact` say what this means for the times and for the
  names in the Job table, and `RestoreRebuildsFileSystem` is the resulting guarantee. If run n
  recorded its changes against the accurate list of its own name and level, the exact condition is
  `AccurateExact`.
- **RecentVersions, BvfsSelects**. The MAX(JobTDate) join and the DISTINCT ON form of the
  recent-version queries have the same answer, with base jobs, delta parts and the restriction to
  one file; for `sql_bvfs_select` the two agree exactly when no file to restore has a BaseFiles
  row as its latest.
- **BvfsIndexes, BvfsCaches, BvfsTotals**. The path hierarchy stays chain-complete, visibility is
  the least fixpoint and equals the prefix-of-path definition, over every run of updates, clears
  and new jobs; `ls_dirs` lists a directory iff some listed job has a file below it; the memoised
  directory totals are the sums over the subtree.
- **BatchInserts, BatchSessions, CopyTexts**. Bulk insertion, with MySQL's 32-row buffer,
  PostgreSQL's COPY text and flushes at any points, ends in the same abstract catalog as
  record-by-record creation; for PostgreSQL exactly when every LStat and MD5 can go unescaped.
- **DeltaParts, Hardlinks, LikePatterns, PgCursors, MediaSlots, PathTables, PathStrings**: the
  delta parts and hard links of a restore list, the LIKE pattern of a directory, the 100-row
  cursor and its transactions, autochanger slots, the one-entry path cache, and the path strings
  under all of it.

Where the code does less than one would expect, the exact condition is proved; the members named
second give a failing case where the condition does not show one by itself:

- A run that starts in the second in which the Full (for a Differential) or the last Full or
  Differential (for an Incremental) ended is not on the accurate list, because the queries ask
  for a StartTime greater than the EndTime; and a run that starts in the second of run n, after
  it, is on the list as of run n unless it is of a lower level. Where each run was recorded since
  the run before it, restores are right iff neither happens (`TimesExact`; `SameSecondIsDropped`,
  `SameSecondLosesFile`, `NextRunOfTheSecondIsMixedIn`).
- `bdb_find_job_start_time` compares the job name and the FileSetId
  (bacula/src/cats/sql_find.c:120-131), the accurate list only the name of the FileSet
  (bacula/src/cats/sql_cmds.c:434-435). Where the times are apart, restores are right iff each run
  of the list finds the run before it: that run has its name and FileSetId, and no other run the
  search considers started in the same second (`ReferencesExact`; `OtherFileSetIdIsMixedIn`,
  `OtherFileSetIdBringsFileBack`).
- A run compares with the accurate list of its own job name (bacula/src/dird/job.c:1527,
  bacula/src/dird/backup.c:293), while some requests give no name (bacula/src/cats/bvfs.c:991-999,
  bacula/src/dird/ua_prune.c:692-699). For runs recorded against that list, a restore as of run n
  is right iff run n joins the list of the request, nothing is on top of it, and the list before
  it holds only runs of its name (`AccurateExact`; `OtherNameBringsFileBack`).
- `bvfs_parent_dir` cuts "tmp/" to "t": it finds the parent iff the path is "/", a drive root or
  has a '/' before its last character (`ParentDirExact`, `ParentDirNeedsSeparator`). Parent and base
  name make up the path again iff, in addition, it is not "//" (`ParentPlusBasename`); adjacent
  slashes elsewhere do no harm.
- The MAX join form of `sql_bvfs_select` loses every file whose latest row comes from a base job
  (`SelectFormsAgree`, `BaseFileIsLost`).
- `insert_missing_delta` asks by no name and cuts the last job off the list. It adds all parts
  below the selected one that belong to its own run iff the jobs left, without the job of the
  selected part, are the list that job compared with (`MissingDeltaExact`). That is so when the run
  joins a list of its own name with nothing on top (`JoinedAsksForOwn`); a Full of another job can
  take the place of the part needed (`OtherNameShadowsPart`), and a run that starts in the second in
  which a Differential ended loses the Differential's part (`CutOffPartIsLost`), but a list of one
  job is not cut (`ShortListIsNotCut`).
- Because of the cut a stale part with the number of the selected part can join it, iff an earlier
  version of the file had that number (`StalePartCondition`; parts 0, 1, 0, 1 in
  `StalePartIsAdded`).
- `insert_hardlinks` adds a data file that was already selected a second time, because the
  callback files it under LinkFI 0 (`RepeatCondition`, `OriginalIsAddedAgain`).
- In `bdb_big_sql_query` a handler that stops ends only its block of 100 rows; the rows are those
  of the plain query iff the handler lets every row before the last block pass (`BlocksAgree`,
  `StopEndsOnlyItsBlock`).
- `clear_cache` sends its own BEGIN and COMMIT without looking at `m_transaction`. A run of calls is
  well bracketed iff no clear comes inside a transaction (`Run`); after one that does, the next
  cursor is refused (`ClearInsideTransaction`). Its one caller
  (bacula/src/dird/ua_dotcmds.c:474-491) uses a console's connection, on which the routines of
  bvfs.c end each transaction they start, so this is a duty of the callers.
- LStat and MD5 go into the COPY stream unescaped; the rows come back iff these are free of tab,
  newline, carriage return and backslash (`StreamRoundTrip`, `UnescapedFieldExact`,
  `UnescapedFieldIsMisread`). If the server refuses the stream, `sql_batch_end` still returns true
  and the batch is empty; `WriteAll` is exact about this too.
- `get_root` empties `path` and leaves `pnl` (bacula/src/cats/bvfs.c:1063-1071), and the lookup
  escapes `pnl` characters: it finds the root iff `pnl` was 0 or the backend is PostgreSQL, whose
  escape stops at the NUL (`RootIsFound`). `fv_update_cache` then stores the root total, or nothing
  at all (`UpdateCache`).
- `bdb_make_inchanger_unique` keeps slots unique on every table iff the group of a record that
  claims a slot holds its storage (`UpdateExact`, `GroupMustHoldStorage`). A MediaId of another
  volume does no harm to that, but puts the updated volume out of the changer
  (`UpdatedVolumeKeepsSlot`).

Conditions taken as given throughout: SQL statements succeed; each routine that holds the
catalog lock is one step; `path` and `pnl` are set together when a path is created (their two
callers do so, bacula/src/cats/bvfs.c:391 and bacula/src/cats/sql.c:827-836); Path strings are
unique at the start; paths in the index are directories that begin with '/' or "<letter>:/"; a
pathid_cache is not kept across a clear of the index, since `BuildPathHierarchy` needs every cached
PathId to have a row; keys in the FileSet table are not 0; only a Full takes files from base jobs
(bacula/src/dird/backup.c:278-282), and from earlier ones.

## Model

| member | source | states |
|---|---|---|
| RestoreHistory.RestoreExact | bacula/src/cats/sql_get.c:1627-1754 | Every catalog whose runs recorded their changes since their reference jobs is restored as of run n iff the accurate list as of run n is run n with its chain of references |
| RestoreHistory.TimesExact | bacula/src/cats/sql_get.c:1685-1735 | Where each run finds the run before it, every such catalog is restored iff no Differential or Incremental of the list starts in the second in which the run before it in kind ended, and no run of the same or a higher kind starts after n in n's second |
| RestoreHistory.ReferencesExact | bacula/src/cats/sql_find.c:120-161 | Where times are apart, every such catalog is restored, whatever the searches answered, iff each run of the promised list finds the run before it |
| RestoreHistory.RestoreRebuildsFileSystem | bacula/src/cats/sql_get.c:1645-1754 | Under both conditions, if every good run up to n recorded its changes and deletions since its reference job, the file list as of run n is exactly the file system of run n |
| RestoreHistory.AncestorsRestore | bacula/src/cats/sql_get.c:1505-1597 | Newest version per file over a run and its chain of references, deletions dropped, is what the run saw, base files included |
| RestoreHistory.AncestorsTell | bacula/src/cats/sql_get.c:1490-1497 | By induction along the references: for each file the newest row tells whether it exists and with which attributes |
| RestoreHistory.AccurateRunIsRestored | bacula/src/cats/sql_get.c:1505-1597 | If run n recorded its changes against the accurate list of its own name and level, joins the list of the request, which holds only its name before it, and has nothing on top of it, the restore as of run n is its file system, whatever earlier runs recorded and whatever FileSetId they carry |
| RestoreHistory.AccurateExact | bacula/src/cats/sql_get.c:1667-1735 | These three conditions on the Job table are necessary too |
| RestoreHistory.TellsIsListed | bacula/src/cats/sql_get.c:1490-1497 | When the newest rows of a set of jobs tell every file, bdb_get_file_list on these jobs returns precisely the file system |
| RestoreHistory.ListedTells | bacula/src/cats/sql_get.c:1510-1518 | Conversely, a file list equal to a file system means the newest rows, with deletion markers, tell every file |
| RestoreHistory.ListedMeansSameItems | bacula/src/cats/sql_get.c:1505-1518 | A file list is the file system exactly when its set of (file, attributes) pairs is the set of pairs of the file system |
| RestoreCases.SameSecondIsDropped | bacula/src/cats/sql_get.c:1713-1725 | A Full over seconds 0-10 and an Incremental over 10-20: the list as of the Incremental is the Full, and the restore is right iff nothing had changed |
| RestoreCases.SameSecondLosesFile | bacula/src/cats/sql_get.c:1713-1725 | A file that this Incremental found is not restored |
| RestoreCases.NextRunOfTheSecondIsMixedIn | bacula/src/cats/sql_get.c:1656-1659 | Two Incrementals in one second, the first of no duration: a restore as of the first holds a file that only the second saw |
| RestoreCases.OtherFileSetIdIsMixedIn | bacula/src/cats/sql_find.c:120-131 | Two Fulls with FileSetIds 1 and 2 of one name and an Incremental with 1: the reference is the first Full, the list starts at the second, and an Incremental that saw what the first saw restores what the second saw |
| RestoreCases.OtherFileSetIdBringsFileBack | bacula/src/cats/sql_cmds.c:428-437 | A file that only the second Full saw comes back |
| RestoreCases.OtherNameBringsFileBack | bacula/src/cats/sql_get.c:1667-1671 | Fulls of two jobs and an Incremental of the first, asked for by no name: the Incremental joins the list, and a file that only the other Full saw comes back |
| JobHistories.ChainIsPicked | bacula/src/cats/sql_get.c:1672-1735 | By position, the accurate list is the last Full, the last Differential started after it ended, and all Incrementals started after both ended; for a Differential, the last Full |
| JobHistories.WholeTableSees | bacula/src/cats/sql_cmds.c:428-437 | With the time limit of run n the table shows exactly the good runs up to the last that started no later than run n |
| JobHistories.TableBeforeSees | bacula/src/cats/sql_cmds.c:428-437 | The table when run n started shows exactly the good runs before it |
| JobHistories.SeenExact | bacula/src/cats/sql_get.c:1656-1659 | Runs ending with n are the list as of run n iff they are the list of the runs up to n and nothing of n's rank or above starts after n in its second |
| JobHistories.PickedIsPromised | bacula/src/cats/sql_get.c:1627-1633 | The list is last Full, last Differential, last Incrementals, as documented, iff no run starts in the second in which the one it follows ended |
| JobHistories.JoinsListExact | bacula/src/cats/sql_get.c:1685-1735 | A run extends the accurate list of its level by itself iff it starts after the last Full, or for an Incremental the last Full or Differential of that list, ended |
| JobHistories.OwnListIsChain | bacula/src/dird/backup.c:291-299 | The accurate list a run asks for with its own record, by position |
| JobHistories.OwnListExact | bacula/src/cats/sql_get.c:1667-1671 | The list before run n under the request's name is the one under its own name iff all on it carry run n's name |
| JobHistories.JoinsOwnListExact | bacula/src/cats/sql_get.c:1667-1735 | Run n extends its own list by itself, on the request's list, iff it joins that list and the list holds only its name |
| JobHistories.EndsWithRun | bacula/src/cats/sql_get.c:1736-1739 | The ordered list as of run n ends with run n iff run n joins the list and nothing is on top of it |
| JobReferences.RefersToIs | bacula/src/cats/sql_find.c:123-161 | The reference by position: the last started earlier run of the same name and FileSetId, a Full for a Differential, and only if such a Full exists |
| JobReferences.ReferenceExact | bacula/src/cats/sql_find.c:123-161 | The search can only answer the run before (the last Full for a Differential, the last good run for an Incremental) iff that run carries the name and FileSetId and has no rival in its second |
| JobReferences.AncestorsExact | bacula/src/cats/sql_find.c:123-161 | By induction: the chain of references is the documented list iff each run on it refers to the run before it |
| AccurateJobs.GetAccurateJobids | bacula/src/cats/sql_get.c:1645-1754 | The temporary table built by the three queries is the chain, each job once, read back in the order of JobTDate |
| AccurateJobs.ChainFields | bacula/src/cats/sql_cmds.c:428-437 | On the columns: every listed job is of the client, ended with T or W, is of Type B, of a FileSet with the requested name, of the job name if given, and started within the limit |
| AccurateJobs.FullMakesChain | bacula/src/cats/sql_cmds.c:428-437 | A Full with these columns makes a list whose Full is no older |
| AccurateJobs.DifferentialJoinsChain | bacula/src/cats/sql_get.c:1685-1711 | A Differential with these columns that started after the listed Full ended, or a later one, is listed |
| AccurateJobs.IncrementalJoinsChain | bacula/src/cats/sql_get.c:1713-1735 | An Incremental with these columns that started after the listed Full and Differential ended is listed |
| AccurateJobs.ChainNeedsFull | bacula/src/cats/sql_get.c:1672-1683 | The list is empty iff no Full qualifies |
| AccurateJobs.ChainShape | bacula/src/cats/sql_get.c:1685-1711 | Every listed job qualifies and started within the limit; one Full, the latest; at most one Differential, started after that Full ended |
| AccurateJobs.ChainIncrementals | bacula/src/cats/sql_get.c:1713-1735 | An Incremental is listed iff it qualifies and started after the listed Full and Differential ended |
| AccurateJobs.ChainIsUnique | bacula/src/cats/sql_cmds.c:428-448 | With distinct JobTDates the list is determined |
| AccurateJobs.FindJobStartTime | bacula/src/cats/sql_find.c:106-185 | The reference job: none without a Full; the last started Full for a Differential, the last started job of any level for an Incremental |
| AccurateJobs.ReferenceFields | bacula/src/cats/sql_find.c:120-161 | On the columns: the reference has the Name, ClientId, FileSetId, Type and status asked for, is a Full for a Differential, and no job with these columns started later |
| AccurateJobs.ReferenceNeedsFull | bacula/src/cats/sql_find.c:123-155 | There is a reference iff a Full with these columns exists |
| CatalogTables.KeyNamesFile | bacula/src/cats/sql_cmds.c:276-324 | A file is named across jobs by PathId and Filename, both |
| RecentVersions.FormsAgree | bacula/src/cats/sql_cmds.c:276-423 | For distinct dates and one row per job and file, a set is an answer of the DISTINCT ON text iff it is the answer of the MAX join text; with or without base jobs and delta parts |
| RecentVersions.MaxJoinIsNewest | bacula/src/cats/sql_cmds.c:340-365 | The MAX join returns exactly the newest candidates, although its outer join does not compare DeltaSeq |
| RecentVersions.MaxJoinJobs | bacula/src/cats/sql_cmds.c:359-361 | Whatever the dates, only rows of listed jobs and of the base jobs they use are returned |
| RecentVersions.DistinctOnIsNewest | bacula/src/cats/sql_cmds.c:303-324 | Any answer of DISTINCT ON is all of the newest rows iff no two rows of a file share the newest date |
| BvfsSelects.SelectFormsAgree | bacula/src/cats/sql_cmds.c:688-732 | The two forms of sql_bvfs_select agree iff no file with FileIndex > 0 has a BaseFiles row as its latest |
| BvfsSelects.SelectIsFileList | bacula/src/cats/sql_cmds.c:688-732 | On the files of some jobs, without base jobs, both forms select exactly the rows of bdb_get_file_list over these jobs: newest version per file, deletions dropped |
| BvfsSelects.NewerVersionIsSelected | bacula/src/cats/sql_cmds.c:688-732 | Two versions of one file, of JobTDate 100 and 200: both forms select the second |
| BvfsSelects.MaxJoinKeepsOwnRows | bacula/src/cats/sql_cmds.c:688-700 | The MAX join form returns exactly the latest rows that come from File |
| BvfsSelects.BaseFileIsLost | bacula/src/cats/bvfs.c:1651-1662 | One job using one base file: DISTINCT ON restores it, the MAX join returns nothing |
| PathStrings.ParentDirExact | bacula/src/cats/bvfs.c:300-326 | For every non-empty string the result is the longest proper prefix that is empty or ends in '/' iff the string is "/", a drive root, or has a '/' before its last character |
| PathStrings.ParentDirNeedsSeparator | bacula/src/cats/bvfs.c:318-324 | "tmp/" is cut to "t", which is its own parent |
| PathStrings.DriveLetters | bacula/src/cats/bvfs.c:305-312 | The letters A to Z and a to z make drive roots, their neighbours do not |
| PathStrings.ParentDirInPlace | bacula/src/cats/bvfs.c:300-326 | The NUL-terminated buffer is cut in place to the parent |
| PathStrings.ParentDirInScope | bacula/src/cats/bvfs.c:300-326 | Absolute directories are closed under the parent, which is strictly shorter |
| PathStrings.AncestorsArePrefixes | bacula/src/cats/bvfs.c:300-326 | Iterating the parent meets exactly the prefixes that are empty or end in '/' |
| PathStrings.ParentPlusBasename | bacula/src/cats/bvfs.c:332-351 | Parent followed by base name is the path iff the path has a parent and is not "//" |
| PathStrings.BasenameOffset | bacula/src/cats/bvfs.c:332-351 | The returned pointer is at the base name |
| PathStrings.SplitPathAndFile | bacula/src/cats/sql.c:791-840 | path and name make up the input, the name has no '/', the path ends in '/' unless the input has none and is all path |
| PathStrings.SplitIsUnique | bacula/src/cats/sql.c:791-840 | That description leaves one result |
| PathTables.PathTable.GetPathRecord | bacula/src/cats/sql_get.c:189-238 | The PathId is that of the uncached search for the first pnl characters of path, 0 when absent, for any pnl |
| PathTables.PathTable.GetRoot | bacula/src/cats/bvfs.c:1063-1071 | The lookup with an emptied path and the old pnl |
| PathTables.RootIsFound | bacula/src/cats/bvfs.c:1063-1071 | That lookup finds the root iff pnl was 0 or the backend is PostgreSQL |
| PathTables.SearchedPastEnd | bacula/src/cats/sqlite.c:321-346 | Past the end of path PostgreSQL looks for path, SQLite for one character more, MySQL for no path |
| PathTables.PathTable.CreatePathRecord | bacula/src/cats/sql_create.c:585-654 | Table and PathId are those of uncached find-or-insert |
| PathTables.PathTable.RunPathOps | bacula/src/cats/sql_create.c:585-654 | Over any sequence of lookups and creations the one-entry cache never changes an answer |
| PathTables.CreateKeepsTable | bacula/src/cats/sql_create.c:615-640 | Strings stay unique, every row stays, the path is found under a non-zero key, and only its string is new |
| PathTables.CreatedIsFound | bacula/src/cats/sql_get.c:189-238 | A created path is found with the same PathId by every later call of a run |
| PathTables.RunKeepsRows | bacula/src/cats/sql_create.c:585-654 | Over any run no two rows share a string and no row changes |
| BvfsCaches.BvfsCache.BuildPathHierarchy | bacula/src/cats/bvfs.c:353-420 | Terminates; keeps chain-completeness and all rows; afterwards the path has a row; leaving early on a cache hit or an existing row loses no ancestor |
| BvfsCaches.BvfsCache.ClimbStep | bacula/src/cats/bvfs.c:367-416 | One turn keeps the chain complete but for the next path, and stops only at a path with a row |
| BvfsCaches.BvfsCache.CloseVisibility | bacula/src/cats/bvfs.c:516-553 | The do/while loop terminates on every hierarchy, leaves the least closed superset for the job, and no change for other jobs |
| BvfsCaches.BvfsCache.UpdatePathHierarchyCache | bacula/src/cats/bvfs.c:427-571 | The job's visibility is the least set with its direct and base paths closed under PPathId; other jobs keep theirs; the whole index stays valid |
| BvfsCaches.BvfsCache.UpdateCacheForJobs | bacula/src/cats/bvfs.c:798-822 | A list of jobs sharing one pathid_cache ends with exactly these jobs added to the indexed ones |
| BvfsCaches.BvfsCache.Clear | bacula/src/cats/bvfs.c:1360-1374 | No job is marked, both tables are empty, the index is valid |
| BvfsCaches.BvfsCache.RunIndexOps | bacula/src/cats/bvfs.c:427-571 | After every run of updates, clears and new jobs HasCache = 1 means a complete index for the job and HasCache = 0 no rows |
| BvfsCaches.BvfsCache.Record | bacula/src/cats/sql_create.c:975-1042 | A new job with its files, paths and base files leaves the index and the files of every other job as they were, and is itself not indexed |
| BvfsCaches.UpdateKeepsIndex | bacula/src/cats/bvfs.c:427-571 | Indexing one job keeps the index of every other job exact, although paths and hierarchy grow |
| BvfsIndexes.LeastClosedIsPrefixClosure | bacula/src/cats/bvfs.c:516-553 | On a chain-complete hierarchy a set is the least fixpoint iff it is the set of directory prefixes of the job's paths |
| BvfsIndexes.GrowthKeepsPrefixClosure | bacula/src/cats/bvfs.c:384-405 | New paths and rows leave an indexed job's visibility as it was |
| BvfsIndexes.StepsAgree | bacula/src/cats/bvfs.c:515-549 | The SQLite, MySQL and PostgreSQL statements add the same rows: parents of visible paths that are not visible yet |
| BvfsIndexes.ListDirsExact | bacula/src/cats/bvfs.c:1174-1184 | On the tables: a directory under the current one has a row of a listed job in the index iff some listed job has a File row, its own with FileIndex > 0 or one named by BaseFiles, whose path has it as a prefix |
| BvfsIndexes.VisibleMeans | bacula/src/cats/bvfs.c:456-463 | On the tables: an indexed job sees exactly the directories that are a prefix of the path of such a File row |
| BvfsIndexes.DirectMeans | bacula/src/cats/bvfs.c:456-463 | The direct paths are those of the job's own files that are not deletions and of the base files it uses |
| BvfsTotals.FileView.ComputeSizeAndCount | bacula/src/cats/bvfs.c:667-713 | Terminates; returns the sum of sizes and the number of File rows in the path and over all visible descendants, whatever part of the memo is filled, and stores it for a visible path; every stored Size > 0 stays a correct total; a PathId without a Path row changes nothing |
| BvfsTotals.FileView.UpdateCache | bacula/src/cats/bvfs.c:573-602 | The total over all visible paths is stored at the root if the root exists and pnl was 0 or the backend is PostgreSQL; otherwise the memo is unchanged |
| BvfsTotals.RootTotal | bacula/src/cats/bvfs.c:573-602 | The root's total is the total over all visible paths of the job |
| BvfsTotals.WeighCounts | bacula/src/cats/bvfs.c:643-663 | A total counts the File rows |
| BvfsTotals.WeighOne | bacula/src/cats/bvfs.c:643-663 | One file weighs its size |
| BvfsTotals.WeighApart | bacula/src/cats/bvfs.c:700-706 | Sizes of disjoint sets of files add up |
| BvfsTotals.FilesUnderMeans | bacula/src/cats/bvfs.c:681-688 | The files of a path are those in it and those whose path is visible and has it as a prefix |
| BvfsTotals.SubtreeSplits | bacula/src/cats/bvfs.c:681-688 | The files at and below a path are its own and those below its children |
| BvfsTotals.ChildrenDisjoint | bacula/src/cats/bvfs.c:696-708 | No path lies below two children of one directory, so nothing is counted twice |
| BvfsTotals.IndexedJobHasView | bacula/src/cats/bvfs.c:681-688 | What HasCache = 1 guarantees is what the totals need |
| DeltaParts.WholeListParts | bacula/src/cats/sql_cmds.c:326-339 | If each version has DeltaSeq 0 or previous + 1 and the last has n, the delta query over the jobs returns parts 0..n of the last run, and any other row it returns for the file is a stale part above n |
| DeltaParts.MissingDeltaExact | bacula/src/cats/bvfs.c:1790-1846 | On every catalog insert_missing_delta adds all parts of the selected part's own run iff the jobs asked about, without the part's own, are the accurate list that job compared with |
| DeltaParts.MissingDeltaCompletesRun | bacula/src/cats/bvfs.c:1790-1846 | If so, parts 0..n-1 of the own run are added; any other row added for the file is an older version with number n or more |
| DeltaParts.JoinedAsksForOwn | bacula/src/cats/bvfs.c:1795-1821 | It is so when the run joins a list of its own name and nothing is on top of it |
| DeltaParts.AskedFor | bacula/src/cats/bvfs.c:1795-1810 | The list asked for is that of the part's client and FileSet, of any name, up to its job's start |
| DeltaParts.StalePartCondition | bacula/src/cats/bvfs.c:1813-1821 | Then a stale part n is added iff the selected part's job is not asked about and an earlier version it knew had number n |
| DeltaParts.AccurateListInOrder | bacula/src/cats/sql_get.c:1736-1739 | Both lists hold good runs in strictly increasing order of their dates, and the run's own comes after its list |
| DeltaCases.OtherNameShadowsPart | bacula/src/cats/bvfs.c:1795-1810 | Jobs "a" Full part 0, "b" Full part 0, "a" Incremental part 1: the part 0 of "a" is not added |
| DeltaCases.CutOffPartIsLost | bacula/src/cats/bvfs.c:1813-1821 | Full part 0, Differential part 1, Incremental part 2 starting in the second the Differential ended: part 1 is not added |
| DeltaCases.ShortListIsNotCut | bacula/src/cats/bvfs.c:1816-1821 | Full and Incremental in the same second: the run does not join, but its own list is asked for |
| DeltaCases.StalePartIsAdded | bacula/src/cats/bvfs.c:1813-1821 | Four jobs with parts 0, 1, 0, 1: part 1 of the second job is added to the selected part 1 of the fourth |
| DeltaParts.LastRun | bacula/src/cats/sql_cmds.c:330-338 | The last unbroken run holds parts 0..n, one version each |
| Hardlinks.Collector.Check | bacula/src/cats/bvfs.c:1400-1432 | A link is queued iff its (JobId, LinkFI) was not queued before |
| Hardlinks.Collector.CheckAll | bacula/src/cats/bvfs.c:1457-1461 | The queue holds each needed (JobId, FileIndex) once and nothing else |
| Hardlinks.KeyIsInjective | bacula/src/cats/bvfs.c:1411-1412 | The 64-bit key determines a 32-bit JobId and a 31-bit LinkFI |
| Hardlinks.SendQueue | bacula/src/cats/bvfs.c:1471-1504 | The statements send the queue once and in order; each has 501 rows but the last, which is not empty |
| Hardlinks.InsertHardlinks | bacula/src/cats/bvfs.c:1445-1526 | The list is kept and followed by each data file of a selected link once |
| Hardlinks.LinksAreComplete | bacula/src/cats/bvfs.c:1504-1506 | Every selected non-directory row with nlink > 1 and LinkFI > 0 has its data file in the final list if the catalog has it |
| Hardlinks.TargetsMean | bacula/src/cats/bvfs.c:1451-1506 | On the tables: a file is added iff a selected non-directory row with nlink > 1 and LinkFI > 0 is of its job and points to its FileIndex |
| Hardlinks.RepeatCondition | bacula/src/cats/bvfs.c:1414-1418 | The final list has a row twice iff the data file of a selected link was selected itself |
| Hardlinks.OriginalIsAddedAgain | bacula/src/cats/bvfs.c:1414-1418 | A file and one hard link to it, both selected: the file is added again |
| LikePatterns.PatternIsPrefix | bacula/src/cats/bvfs.c:1619-1645 | Under LIKE with ESCAPE '\' the escaped directory followed by '%' matches a path iff the directory is a prefix of it |
| LikePatterns.LikePercent | bacula/src/cats/bvfs.c:1636-1645 | LIKE as the standard has it: a percent sign stands for any text, anywhere in the pattern |
| LikePatterns.LikeOne | bacula/src/cats/bvfs.c:1636-1645 | An underscore stands for one character, others and the escaped special ones for themselves |
| LikePatterns.DirPattern | bacula/src/cats/bvfs.c:1619-1632 | The loop writes that pattern, in at most twice the length plus one |
| BatchInserts.FileCatalog.CreateFileAttributesRecord | bacula/src/cats/sql_create.c:975-1042 | One record adds its path string and one File record with the split name, its digest or "0", and its other fields unchanged, whatever the path cache held |
| BatchInserts.FileCatalog.FillPaths | bacula/src/cats/sql_cmds.c:906-924 | Path gets exactly the missing batch paths, stays unique, and stored files keep their meaning |
| BatchInserts.FileCatalog.InsertBatch | bacula/src/cats/sql_create.c:905-909 | The join adds exactly one File row per batch row |
| BatchInserts.FileCatalog.CreateAll | bacula/src/cats/sql_create.c:975-1042 | A sequence created record by record leaves the catalog that RecordAll gives from the old contents, the form every batch is compared with |
| BatchInserts.NamedFields | bacula/src/cats/sql_create.c:1020-1042 | Field by field, what a record is stored as: the split name, the digest or "0" for none, the rest unchanged |
| BatchInserts.NamedAllFields | bacula/src/cats/sql_create.c:1020-1042 | The same of record i of a sequence |
| BatchInserts.RecordAllAddsEach | bacula/src/cats/sql_create.c:837-846 | A sequence of records adds one File record each and precisely their path strings |
| BatchSessions.BatchSession.WriteAll | bacula/src/cats/sql_create.c:852-965 | Any records, flushed at any points, end in the abstract catalog of record-by-record creation iff the backend takes all as they are: always for MySQL and SQLite, for PostgreSQL iff LStat and MD5 are plain |
| BatchSessions.BatchSession.CreateBatchFileAttributesRecord | bacula/src/cats/sql_create.c:937-965 | The pending rows grow by exactly this record; more than 500000 changes are first moved into the catalog |
| BatchSessions.BatchSession.WriteBatchFileRecords | bacula/src/cats/sql_create.c:852-924 | Everything pending, the statement buffer or the COPY stream too, goes into the catalog as it arrives; nothing is left over |
| BatchSessions.BatchSession.SqlBatchInsert | bacula/src/cats/mysql.c:803-855 | The rows sent and buffered are the earlier ones followed by the new one: each once, in order; MySQL sends with every 32nd row and at no other |
| BatchSessions.BatchSession.SqlBatchEnd | bacula/src/cats/postgresql.c:1221-1259 | The batch table holds all rows taken over, in order; for PostgreSQL what is read from the stream, or nothing |
| BatchSessions.ArrivesOrShrinks | bacula/src/cats/postgresql.c:1221-1305 | Rows arrive as they were when the backend takes them all; otherwise what arrives is shorter, so no later flush makes up for it |
| CopyTexts.StreamRoundTrip | bacula/src/cats/postgresql.c:1261-1305 | Reading the COPY stream of any rows, any paths and names, gives back the rows iff every LStat and MD5 is free of tab, newline, carriage return and backslash |
| CopyTexts.ReadLength | bacula/src/cats/postgresql.c:1261-1305 | A stream that is read as some rows is at least as long as these rows fully escaped |
| CopyTexts.EscapedField | bacula/src/cats/postgresql.c:1108-1155 | An escaped field has no raw separator, cannot be the null marker, and fits in twice the length |
| CopyTexts.CopyEscape | bacula/src/cats/postgresql.c:1117-1155 | The pointer loop writes the escaped text and its NUL within 2 * len + 1 characters |
| CopyTexts.UnescapedFieldExact | bacula/src/cats/postgresql.c:1282-1284 | A field sent without escaping is read back iff it has no tab, newline, carriage return or backslash |
| CopyTexts.UnescapedFieldIsMisread | bacula/src/cats/postgresql.c:1282-1284 | A tab ends the field early; a backslash and n are read as a newline |
| CopyTexts.NullMarker | bacula/src/cats/postgresql.c:1110-1117 | A field of just the null marker is NULL; the marker before more text is refused |
| CopyTexts.WrongLine | bacula/src/cats/postgresql.c:1282-1284 | A line with a separator out of place or an unknown escape is refused |
| PgCursors.BlocksAgree | bacula/src/cats/postgresql.c:735-751 | The cursor loop delivers what the plain query does iff the handler stops at none of the rows before the last block of 100 |
| PgCursors.StopEndsOnlyItsBlock | bacula/src/cats/postgresql.c:735-751 | 101 rows and a handler that stops at once: one row from the plain query, two from the cursor |
| PgCursors.BlocksDeliverEverything | bacula/src/cats/postgresql.c:735-751 | A handler that never stops gets every row once and in order |
| PgCursors.PgConnection.BigSqlQuery | bacula/src/cats/postgresql.c:700-763 | The FETCH loop terminates with the block-wise delivery, and leaves the transaction state as it was; refused iff m_transaction is set and the server has no transaction |
| PgCursors.PgConnection.PlainQuery | bacula/src/cats/postgresql.c:770-803 | Rows are delivered in order up to and with the first at which the handler stops |
| PgCursors.PgConnection.SqlFetchRow | bacula/src/cats/postgresql.c:898-941 | The next row of the result, each once; none after the last |
| PgCursors.PgConnection.StartTransaction | bacula/src/cats/postgresql.c:643-675 | Sends BEGIN only outside a transaction, COMMIT before it after 25000 changes |
| PgCursors.PgConnection.EndTransaction | bacula/src/cats/postgresql.c:677-693 | Sends COMMIT only inside a transaction |
| PgCursors.PgConnection.Run | bacula/src/cats/postgresql.c:643-763 | Over every run of starts, ends, inserts, clears and big queries BEGIN and COMMIT are well bracketed, cursors stay inside and m_transaction is what the server sees, iff no clear comes inside a transaction |
| PgCursors.MisplacedCommands | bacula/src/cats/postgresql.c:720-760 | What counts as badly bracketed: BEGIN inside a transaction, COMMIT and cursor commands outside |
| PgCursors.PgConnection.ClearCache | bacula/src/cats/bvfs.c:1360-1374 | Outside a transaction all stays well bracketed; inside one the server's transaction ends and m_transaction stays set |
| PgCursors.ClearInsideTransaction | bacula/src/cats/bvfs.c:1360-1374 | A start, a clear and a big query on a new connection: the query is refused |
| PgCursors.ClearCacheBracketed | bacula/src/cats/bvfs.c:1360-1374 | The commands of clear_cache are well bracketed iff no transaction is open, and none is open after them |
| MediaSlots.RunKeepsMedia | bacula/src/cats/sql_update.c:515-544 | Over every run of creations and updates whose groups hold their storage, names stay unique and no two volumes are in the changer on one slot of one storage |
| MediaSlots.UpdateKeepsMedia | bacula/src/cats/sql_update.c:346-454 | An update whose group holds its storage keeps both rules, whatever MediaId it carries |
| MediaSlots.UpdateExact | bacula/src/cats/sql_update.c:346-454 | A record keeps both rules on every table iff it claims no slot or its group holds its storage |
| MediaSlots.InsertKeepsMedia | bacula/src/cats/sql_create.c:409-512 | A creation keeps both rules and stores the volume with the slot it claims |
| MediaSlots.UpdatedVolumeKeepsSlot | bacula/src/cats/sql_update.c:525-534 | The updated volume keeps what was set iff the record claims no slot or its MediaId, or without one its name, is that of the volume |
| MediaSlots.OnlyRivalsAreEvicted | bacula/src/cats/sql_update.c:525-541 | A volume of another name leaves the changer iff the record claims the slot it sits on, on a storage of the group (or the record's own if there is none), and is not spared by its MediaId; else it is unchanged |
| MediaSlots.GroupMustHoldStorage | bacula/src/cats/sql_update.c:520-530 | If the group lacks the volume's storage, some table ends with two volumes on one slot |
| MediaSlots.MediaTable.Create | bacula/src/cats/sql_create.c:409-512 | Refused iff the name exists; else one new row and the evictions |
| MediaSlots.MediaTable.UpdateRecord | bacula/src/cats/sql_update.c:346-454 | The table after both UPDATE statements |
| MediaSlots.MediaTable.Run | bacula/src/cats/sql_update.c:346-454 | A run of creations and updates leaves the table that the statements give one after the other |

## Left out

- Connection setup, TLS, retries and sleeps, locks, and the libpq and MySQL calls: foreign code and I/O.
- SQL failure paths: the properties are stated for statements that succeed.
- Quoting of SQL literals and the MATCH/ILIKE operators: done by libraries; statements are modelled over values.
- The two forms of sql_bvfs_list_files: their order on DeltaSeq and date differs, and no agreement is claimed.
- LIMIT, OFFSET, the pattern filter and the outer join with attributes in ls_dirs, and the de-duplication in _handle_path: only the index subquery is modelled.
- The rows of a job are inserted into File in the order of the batch table; SQL leaves that order open, so the abstract catalog compares bags of records.
- BatchSessions.BatchSession.SqlBatchInsert: the text of MySQL's and SQLite's INSERT statements is not modelled; their rows are values.
- PathTables.PathTable.GetPathRecord: for a path shorter than pnl on MySQL the search is modelled as finding nothing, because the text holds a NUL and no Path string does.
- CopyTexts.StreamRoundTrip: the reader knows the escapes for newline, tab, carriage return and backslash and refuses others that PostgreSQL also accepts, such as octal ones.
- LikePatterns.PatternIsPrefix: the standard's LIKE compares characters exactly; SQLite's default LIKE ignores ASCII case.
- DeltaParts.MissingDeltaCompletesRun: the job list is a sequence of JobIds, not its comma-separated text, and the delta parts are stated without base jobs.
- BvfsTotals.FileView.ComputeSizeAndCount: sizes and counts are unbounded integers; the 64-bit and 32-bit columns are not modelled.
- PathTables.PathTable.InsertPaths: the keys of several rows inserted by one statement are given in any order.
- Full-text listing of tables (sql_list.c), deletion and purge routines, access-control stubs, and bdb_update_media_defaults: output formatting or single statements.
- decode_stat and the base64 of LStat: the link count, LinkFI and the size are row fields.
