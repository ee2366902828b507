# Model of bossclaw

This project models the event-sourced memory engine `bossclaw-core` with its daemon and desktop
companions, and proves what its parts promise. The log is an append-only sequence of events with unique
ids; folds over it give the current graph, pages, files, grants and mandates; a safe walk feeds an ingest
loop that keeps the log in step with a file tree; text is chunked, indexed, ranked and fused; sources are
fenced into prompts; and a few small protocols keep a daemon single, a watcher awake and a file write
atomic.

Code that is a loop over mutable state is a method or a class with the same loops and branches, proved
against a specification function or a declarative predicate; the properties are lemmas about those. Code
that only computes is functions and lemmas.

| module | component |
|---|---|
| `Events`, `Graph`, `Grants`, `Current` | the log's events, and the folds over edges, authorities, mandates, pages and files |
| `Walk`, `WalkPaths`, `WalkOrder`, `TreePaths` | the directory walk, which files it finds under which paths and in which order, and their absolute names |
| `Ingest`, `RunReport`, `IngestLoop` | the per-path dedup and supersede decision, what a run writes and reports, and the loop itself |
| `Convergence`, `History` | what runs of the loop do to the log, over whole histories |
| `TreeSync` | walks and ingest together: what a run over all grants leaves for every file of a tree |
| `Text`, `Seqs`, `Chunk`, `ChunkBlocks`, `ChunkOverlap` | string routines, the chunker, what each chunk holds, and which chunks overlap |
| `Markers`, `Sanitize`, `Fence`, `Prompts`, `Judge` | markers in text, and every prompt that fences untrusted text |
| `Keys`, `Conflict`, `Index`, `Recall` | index keys, the conflict finder, the vector index, rank fusion |
| `Watch`, `Lock`, `AtomicWrite` | the watcher's two threads, the daemon's lock, the actuator's file write |
| `Frontmatter`, `Keyword` | frontmatter stripping, and full-text query escaping |
| `ConfigHistory`, `Schedule`, `Missions` | versioned configuration, schedule normalisation, next runs |

`dafny verify dfyconfig.toml` checks the whole project.

## What stands for the outside

- The clock, the grant check, file reads, parsers, path lookups, log writes and the embedder are answers carried
  by each walked file (`Ingest.Probe`), that of the rebuild by each grant; statements hold for all answers. The ids the log assigns are part of it and
  are fresh.
- Directories are a graph that may be cyclic; never-touch lists, caps and file extensions are parameters. Over
  a run of all grants the tree, the bytes behind its inodes and what parsers make of them stay as they are.
- The fixed words of prompts are parameters: any text without `<`, beginning and ending, where it joins other
  text, with the blank, line break or parenthesis the source has there.
- System calls of the file write read their answers from a script of any finite length, so any call may
  fail, be cut short or be interrupted; after the script every call works.
- The graph search of the vector index is any function that returns exact nearest neighbours, with ties
  broken in any way.
- Timestamps are normalised by a parameter; hashing is a parameter.
- Similarities and distances are reals or NaN; arm scores are integers in the order of the float's total
  order; fused sums are reals.
- A configuration object is normalised as a whole by a parameter, which also says how its id is set and how it
  is archived. What is proved of histories takes normalising to be idempotent, or to settle at the second time;
  `Schedule` shows when schedules do the first and that they always do the second.
- Instants are a day, a minute of the day and milliseconds, on a timeline without daylight-saving changes.

## Where code and documentation disagree

The model follows the code.

- `chunk.rs` line 15 says consecutive chunks share an overlap. Chunks of the window loop do
  (`ChunkOverlap.WindowsShare`); a packed chunk after one is not given any. `ChunkOverlap.OverlapEverywhereIff`
  says for which texts all chunks get theirs, and `ChunkOverlap.OverlapPromiseFails` is a text where one does not.
- `ingest.rs` rebuilds the projection only at the end of a grant, so an error leaves it behind the log and
  the next run can leave two live records for one path (`Convergence.AbortedRunDuplicates`). When exactly a run
  keeps one per path is `Convergence.OnePerPathExactly`, and when a whole history does `History.ThroughoutExactly`.
- "Every admissible path is projected" holds of files with one name; of the names of a hard link only the one
  found first is (`TreeSync.EveryNameDecided`).
- `summarize.rs` interpolates the label and type of a dossier stripped and capped, and its edge lines and ids
  as they are, none of them neutralised, so its prompt parses back exactly when none of them holds a marker
  (`Prompts.ComposeReadsBackExactly`, `Prompts.MarkerLabelMisreads`).
- `index.rs` says a search with tombstones may return fewer than `k` live hits. With an exact graph search
  it never does (`Index.OverfetchSuffices`, `Index.NearestLiveCount`).
- `lock.rs` calls the socket bind the true mutex when two acquisitions interleave. The reclaim unlinks a
  socket that is being served, so both binds succeed (`Lock.InterleavedCallsShareOwnership`); single
  ownership is proved with acquisition as one step.
- `lock.rs` takes a lock file it cannot read for a stale one. That gives the lock a second holder exactly in the
  cases `Lock.AcquireKeepsInvIff` names (`Lock.UnreadableLockSharesOwnership`).
- `unordered_pair_key` needs ids without the character U+001E (`Keys.UnorderedPairKeyExact`,
  `Keys.PairKeysCollide`); `pair_key` is injective for all ids.
- `parseLegacyCron` accepts hours above 23 and minutes above 59; those schedules change at the second
  reading (`Schedule.NormaliseIdempotentIff`).
- "Every n minutes" restarts its grid every hour, so the runs are steady exactly when n divides the hour or
  is whole hours (`Missions.SteadyIff`).

## Model

| member | source | states |
|---|---|---|
| `Graph.FoldEdges` | `crates/bossclaw-core/src/graph.rs:334-388` | The fold with its index of open edges returns, for every log, exactly one edge per well-formed link in link order, closed by the first later `invalidate` of the same (src, relation, dst) and open if there is none; it also states, by `Graph.AllTold`, every field of every edge read off the log. |
| `Graph.EdgesTellTheLog` | `crates/bossclaw-core/src/graph.rs:334-388` | Field by field, in the words of the log: an edge has the id, src, relation and dst of its `link` event, is valid from that event's valid time (or its time stamp) and ingested at its time stamp, with origin and confidence as its model id says; if a later event invalidates that triple, the first one gives the valid-to, invalidated-at and invalidated-by, and otherwise it is open. |
| `Graph.AppendKeepsEdges` | `crates/bossclaw-core/src/graph.rs:334-388` | Appending any events never reopens, alters or drops a closed edge; an open edge stays as it is until the first appended `invalidate` of its key. |
| `Graph.EdgesFaithful` | `crates/bossclaw-core/src/graph.rs:334-388` | With unique event ids an edge id names one edge, opened by one event of the log, and the edge is closed if and only if a later event invalidates its key. |
| `Grants.FoldGrants` | `crates/bossclaw-core/src/graph.rs:467-485` | The read fold and the write fold (lines 511-529), as one method over either authority, compute for every root what the log says about it. |
| `Grants.LatestGrantDecides` | `crates/bossclaw-core/src/graph.rs:462-466` | A root has a grant if and only if some event granted it; the grant carries the time of the latest one and is revoked if and only if a revoke came after that. |
| `Grants.GrantTellsTheLog` | `crates/bossclaw-core/src/graph.rs:467-485` | The grant of a root carries the time stamp of the last event of type `grant` (or `write_grant`) naming the root, and is revoked if and only if a `revoke` (or `write_revoke`) naming it comes later; it has none exactly when no such grant event exists. |
| `Grants.AuthoritiesIndependent` | `crates/bossclaw-core/src/graph.rs:501-506` | Inserting a read event anywhere in any log changes no write grant, and the other way round. |
| `Grants.FoldMandates` | `crates/bossclaw-core/src/graph.rs:555-596` | Each well-formed mandate grant yields one mandate under its own id, revoked if and only if a later event revokes that id; a malformed grant never yields one. |
| `Grants.MandateTellsTheLog` | `crates/bossclaw-core/src/graph.rs:555-596` | Its target, source scope and recipe are those members of one `mandate_grant` event under its id, with that event's time stamp, and it is revoked if and only if a later `mandate_revoke` names the id. |
| `Current.FoldCurrent` | `crates/bossclaw-core/src/graph.rs:421-443` | The two-pass supersede folds (pages here, files at 622-644) compute the projection: per key the latest record whose id no supersede anywhere in the log retires. |
| `Current.CurrentTellsTheLog` | `crates/bossclaw-core/src/graph.rs:421-443` | Every field of a current page or file is that member of one event whose id no `supersede` names, and every later well-formed event of its key is named by one; without a current record every such event is. |
| `Current.OnlineIsExact` | `crates/bossclaw-core/src/graph.rs:622-644` | An incremental state of retired ids and all live records per key equals, at every prefix of every log, the two-pass meaning. |
| `Current.LiveAfter` | `crates/bossclaw-core/src/graph.rs:622-644` | How one appended event changes the live records of a key: a record is added at the end, a retired one is taken out, and nothing else moves. |
| `Current.RetiredNeverReturns` | `crates/bossclaw-core/src/graph.rs:415-420` | A retired id is never live, let alone current, in any extension of the log. |
| `Current.RetiringCurrentReexposes` | `crates/bossclaw-core/src/graph.rs:415-420` | Retiring the current record re-exposes the latest older live record of that key, or leaves none. |
| `Ingest.FileEventReadsBack` | `crates/bossclaw-core/src/ingest.rs:688-711` | The content written for an ingested file reads back through the fold as its path, the hash of its bytes and its grant root. |
| `Ingest.FileEventStates` | `crates/bossclaw-core/src/ingest.rs:698-711` | For every file with bytes and text the event has the text as `text`, `external` as `origin`, and in its provenance the path, both hashes, the size, the modification time, the parser and the grant root, each under its own name. |
| `IngestLoop.EventLog.Settle` | `crates/bossclaw-core/src/ingest.rs:779-799` | One turn of the loop appends nothing, the file event, or a supersede followed by the file event, and fails exactly when a lookup, the append or the embedding does. |
| `IngestLoop.EventLog.IngestGrant` | `crates/bossclaw-core/src/ingest.rs:729-807` | The loop over the walked files appends, counts and rebuilds exactly as specified; an error returns before the rebuild, and an error there or in the rebuild leaves the projection as it was. Read off the log it adds (`RunReport.Told`): each event states one of the files as it is, or supersedes what the projection showed under its path; when it ends well every file that gives text and was not known is stated, and the three counts grow by the file events without a supersede before them, the supersedes, and the known files. |
| `RunReport.DecisionExact` | `crates/bossclaw-core/src/ingest.rs:744-799` | A file is skipped, failed, deduplicated, appended or stops the run exactly for the reason that comes first in the order of the checks, with the reason's own words. |
| `RunReport.EveryNewFileWritten` | `crates/bossclaw-core/src/ingest.rs:784-798` | A completed run appends, for every file that gives text and is not known, an event that states it member by member, right after a supersede of what the projection showed under its path if it showed anything. |
| `RunReport.NothingElseWritten` | `crates/bossclaw-core/src/ingest.rs:784-798` | Every event a run appends, completed or not, is such an event or such a supersede. |
| `RunReport.ReportTellsTheLog` | `crates/bossclaw-core/src/ingest.rs:744-799` | On a completed run `ingested` grows by the file events appended without a supersede before them, `superseded` by the supersedes, `deduped` by the known files; the notes are those of the skipped and failed files with their reasons; and every file is counted exactly once. |
| `IngestLoop.EventLog.IngestAll` | `crates/bossclaw-core/src/ingest.rs:665-677` | The grants' files in turn, stopping at the first grant that fails: log, report and projection as specified, the projection after a failed grant being the one the grant before it left. |
| `Convergence.EmptyLogStarts` | `crates/bossclaw-core/src/ingest.rs:800-805` | The base of every history: an empty log is in sync with its empty projection and holds at most one live record per path. |
| `Convergence.RunLive` | `crates/bossclaw-core/src/ingest.rs:729-807` | The exact effect of a run, completed or aborted, on the live records of every path: a path it wrote loses the one record the projection showed and gains the new one; every other path is untouched. |
| `Convergence.RunConverges` | `crates/bossclaw-core/src/ingest.rs:756-807` | After a completed run that starts in sync, the projection shows for every file it got to read as text the hash of that file's current bytes. |
| `Convergence.SecondRunAppendsNothing` | `crates/bossclaw-core/src/ingest.rs:756-775` | A second run over the same tree appends nothing, whatever fails in it, and completes unless a lookup fails. |
| `Convergence.SecondRunOnlyDedups` | `crates/bossclaw-core/src/ingest.rs:779-783` | It reports every file that gives text as `deduped`, and nothing else. |
| `Convergence.OnePerPathExactly` | `crates/bossclaw-core/src/ingest.rs:756-801` | A run keeps at most one live record per path if and only if the projection it decides from shows what is live under every path it writes. |
| `Convergence.InSyncKeepsOnePerPath` | `crates/bossclaw-core/src/ingest.rs:756-801` | So every run that starts with the projection in sync keeps at most one live record per path, even if it aborts. |
| `Convergence.HistoryKeepsOnePerPath` | `crates/bossclaw-core/src/ingest.rs:729-807` | Over any history of completed runs, of the same or different grants and with any files and outside answers, the log never holds more than one live record for a path. |
| `History.ThroughoutExactly` | `crates/bossclaw-core/src/ingest.rs:729-807` | Over any history of runs that complete or abort, other appended events and rebuilds, no path has two live records at any time if and only if every run decides from a projection that shows what is live under the paths it writes. |
| `History.RepairedKeepsOnePerPath` | `crates/bossclaw-core/src/log.rs:1400-1409` | The orders that keep it: any in which the projection is rebuilt (as opening the log and changing a grant do) between a run that ended with an error, be it only that of its own rebuild, and the next run, whatever other events are appended and whatever they retire. |
| `Convergence.AbortedRunDuplicates` | `crates/bossclaw-core/src/ingest.rs:793-805` | The failing family: after a run that appended a new file and then failed to embed it, ingesting the same bytes again leaves two live records for the path. |
| `Convergence.AllRunsConverge` | `crates/bossclaw-core/src/ingest.rs:665-682` | A completed run over all grants, whose files have distinct paths (see `TreeSync.SharedSeenKeepsPathsApart`), leaves every file it got to settled, and at most one live record per path. |
| `Convergence.UnwalkedUntouched` | `crates/bossclaw-core/src/ingest.rs:665-682` | A path under which no grant ingests a file keeps its live records through the whole run, completed or not. |
| `Convergence.SecondIngestAllAppendsNothing` | `crates/bossclaw-core/src/ingest.rs:665-682` | A second run over all grants appends nothing, whatever fails in it; unless a lookup or a rebuild fails it completes and reports only `deduped`. |
| `Walk.Walker.Walk` | `crates/bossclaw-core/src/ingest.rs:537-651` | The stack loop performs the whole recursive walk, unless a directory cannot be read or the budget runs out; it stops for the budget if and only if its last read of the clock found it spent, and then has performed a prefix of the walk and noted the directory where it stopped. Sink, skips and failures are what its trace gives. It ends on cyclic directory graphs by a strictly decreasing count of directories still to open. |
| `Walk.Walker.VisitDirectory` | `crates/bossclaw-core/src/ingest.rs:557-648` | One popped directory performs its own part of the specification, or a prefix of it and the budget note exactly if the last read of the clock found the budget spent. |
| `WalkPaths.WalkFindsAdmissible` | `crates/bossclaw-core/src/ingest.rs:537-651` | The whole walk finds a file under a path if and only if a route of names leads to it through directories that are neither never-touch nor too deep, and it is a regular, admissible file within its cap. |
| `WalkPaths.KeptExactly` | `crates/bossclaw-core/src/ingest.rs:566-580` | Over the raw listing: an entry is looked at if and only if its name is neither `.` nor `..` and fewer than the cap of such entries come before it, each once and in the order of the listing. |
| `WalkPaths.SkippedHere` | `crates/bossclaw-core/src/ingest.rs:580-643` | A directory reports a path as skipped with a reason if and only if an entry looked at is passed over for exactly that reason, or its cap is exceeded. |
| `WalkPaths.FailedHere` | `crates/bossclaw-core/src/ingest.rs:634-638` | It reports a file as failed if and only if its careful opening was refused, with the refusal's words. |
| `WalkOrder.LaterListedFirst` | `crates/bossclaw-core/src/ingest.rs:555-621` | Of two subdirectories gone into, everything below the one listed later comes before anything below the other, and what the directory itself gives comes before both. |
| `Walk.SunkOnce` | `crates/bossclaw-core/src/ingest.rs:643-648` | Sunk are exactly the finds that are the first of an inode not seen before; each such inode is sunk once. |
| `Walk.CollectHolds` | `crates/bossclaw-core/src/ingest.rs:580-648` | Sink, seen inodes, skips and failures together account for every action of the walk, in order. |
| `WalkPaths.WalkedPathsDistinct` | `crates/bossclaw-core/src/ingest.rs:537-651` | No two files of a walk, whole or cut short, have the same path: what the ingest loop needs of its input. |
| `TreePaths.FileUnique` | `crates/bossclaw-core/src/ingest.rs:520-524` | In a tree without two entries of one name in a directory, a route of names leads to one inode. |
| `TreePaths.PathInjective` | `crates/bossclaw-core/src/ingest.rs:591-591` | Different routes of proper names have different paths. |
| `TreePaths.JoinedIsAbsolute` | `crates/bossclaw-core/src/ingest.rs:646-646` | Joining a canonical root with the path of a file below it gives the absolute path of the whole route. |
| `TreeSync.FlatIsSunk` | `crates/bossclaw-core/src/ingest.rs:672-676` | Walks that share the set of seen inodes sink, one after another, exactly what one walk through all the trees would. |
| `TreeSync.SharedSeenKeepsPathsApart` | `crates/bossclaw-core/src/ingest.rs:656-676` | However grants overlap and wherever their walks stop, no path is ingested twice in a run. |
| `TreeSync.EveryNameDecided` | `crates/bossclaw-core/src/ingest.rs:643-646` | After a completed run that starts in sync, the name under which the walks found an inode first is projected with the hash of the file's bytes, if they give text; any other name of it, a hard link, keeps the records it had. |
| `TreeSync.EveryFileProjected` | `crates/bossclaw-core/src/ingest.rs:665-682` | Without hard links, every file that any grant admits is projected, under its absolute path, with the hash of its bytes, if they give text. |
| `TreeSync.OthersUntouched` | `crates/bossclaw-core/src/ingest.rs:665-682` | A path to which no admissible route leads keeps its records. |
| `TreeSync.SecondSweepAppendsNothing` | `crates/bossclaw-core/src/ingest.rs:665-682` | Walking and ingesting the unchanged tree again appends nothing, and completes unless a lookup or a rebuild fails. |
| `TreeSync.IngestAll` | `crates/bossclaw-core/src/ingest.rs:665-682` | The loop over the active grants, each walked and then ingested, with one set of seen inodes: log, projection and report are as specified from what the walks sank. It ends well if and only if every grant was walked and all completed, and it stops early only at a file or rebuild that fails or at a directory that cannot be read. |
| `TreeSync.RunIsSweep` | `crates/bossclaw-core/src/ingest.rs:665-682` | A run of that loop over canonical roots of one tree that ends well, from a log in sync, with fresh ids and time for every file, meets the hypotheses of the lemmas above. |
| `TreeSync.EndsWellIffReadable` | `crates/bossclaw-core/src/ingest.rs:563-567` | A run in which no outside call but the reading of directories fails, and which no deadline cuts short, ends well if and only if every directory its walks reach can be read; then every walk is whole. |
| `TreeSync.ReadableTreeIsProjected` | `crates/bossclaw-core/src/ingest.rs:665-682` | So with readable directories, working outside calls, time, and no hard links, the run ends well and leaves every file that any grant admits projected with the hash of its bytes, and one live record per path. |
| `Walk.TurnSplits` | `crates/bossclaw-core/src/ingest.rs:555-562` | One turn of the loop: the walk of a stack is the top directory's own actions, then its subdirectories, then the rest. |
| `Chunk.SplitIntoBlocksKeepsVisible` | `crates/bossclaw-core/src/chunk.rs:101-114` | Splitting into blocks drops whitespace only, and every block is trimmed and not empty. |
| `ChunkBlocks.BlocksOfText` | `crates/bossclaw-core/src/chunk.rs:101-114` | No block of any text holds a blank line of either kind, begins or ends with whitespace, or is empty. |
| `Chunk.EmitBlockWithOverlap` | `crates/bossclaw-core/src/chunk.rs:128-144` | The window loop emits exactly the specified windows. |
| `Chunk.Pack` | `crates/bossclaw-core/src/chunk.rs:66-96` | The greedy packing loop, with its flushes and its oversized branch, computes the specified packing. |
| `Chunk.PackedFresh` | `crates/bossclaw-core/src/chunk.rs:66-96` | Whatever is packed so far, each further chunk is an overlap prefix, empty or exactly the tail of the chunk before, followed by fresh text, and the fresh parts keep the blocks' visible characters in order. |
| `Chunk.PackedIsLossless` | `crates/bossclaw-core/src/chunk.rs:56-96` | End to end, the visible characters of the fresh parts in order are those of the text. |
| `Chunk.PackedBounds` | `crates/bossclaw-core/src/chunk.rs:30-40` | Every chunk has 1 to 600 characters, and there are at most as many chunks as blocks plus one for every 500 characters of block text. |
| `ChunkBlocks.ChunksTakeBlocksInOrder` | `crates/bossclaw-core/src/chunk.rs:66-157` | For every long text there is an account of the chunks that goes through the blocks from the first to the last without a gap: each chunk is whole blocks with a blank line between every two, as many as fit, or the tail of the chunk before (its last 100 characters) and the next piece of a block, as long as fits; a block is cut only if it fits nowhere whole. |
| `ChunkBlocks.RunSplitsBack` | `crates/bossclaw-core/src/chunk.rs:74-114` | A chunk of whole blocks splits back into exactly these blocks. |
| `ChunkOverlap.WindowsShare` | `crates/bossclaw-core/src/chunk.rs:128-157` | Every chunk the window loop adds starts with the last 100 characters (or all) of the chunk before it. |
| `ChunkOverlap.OverlapEverywhereIff` | `crates/bossclaw-core/src/chunk.rs:15` | For every text, every chunk after the first carries the tail of the chunk before it if and only if all blocks after the first that does not fit are longer than 600 characters. |
| `ChunkOverlap.CarriedIsShared` | `crates/bossclaw-core/src/chunk.rs:128-157` | A chunk that carries the tail begins with it. |
| `ChunkOverlap.OverlapPromiseFails` | `crates/bossclaw-core/src/chunk.rs:15` | A text where the promise fails: 601 letters, a blank line and one other letter end in a chunk that does not begin with the tail of the chunk before. |
| `ChunkOverlap.ThirdBlockStandsAlone` | `crates/bossclaw-core/src/chunk.rs:74-93` | After two blocks that do not fit into one chunk, a short third one is a chunk of its own with nothing put before it. |
| `ChunkOverlap.PackedLastStartsAfresh` | `crates/bossclaw-core/src/chunk.rs:74-93` | A last block that is packed right after a windowed one is a chunk by itself, after any list of blocks. |
| `Chunk.ChunkText` | `crates/bossclaw-core/src/chunk.rs:56-96` | The entry point is lossless and within the bounds for every text, and a text within the budget is one unchanged chunk. |
| `Markers.NoOverlap` | `crates/bossclaw-core/src/extract.rs:185-197` | Two markers in one text start at the same place and are the same, or do not overlap. |
| `Markers.ReplaceCreatesNone` | `crates/bossclaw-core/src/extract.rs:214-221` | Replacing all occurrences of one marker by a text no marker can begin, end or lie in never creates a marker, across any seam. |
| `Markers.FencedTokens` | `crates/bossclaw-core/src/extract.rs:185-197` | Clean text between two markers is read as plain text between two marks, whatever follows. |
| `Markers.CleanIffNoMarks` | `crates/bossclaw-core/src/extract.rs:214-221` | A text is read without marks if and only if it contains none of the markers. |
| `Markers.ReplacingRenders` | `crates/bossclaw-core/src/conflict.rs:95-101` | Replacing every marker by a text of its own, one marker after the other, gives the text with each mark written anew and every plain character kept, whatever the order of the replacements. |
| `Fence.NeutralizedIsClean` | `crates/bossclaw-core/src/extract.rs:214-221` | No text contains a fence marker once neutralised. |
| `Fence.GuardChangesNothing` | `crates/bossclaw-core/src/extract.rs:205-221` | The early return for texts without a marker only saves work: the result is the same with or without it. |
| `Fence.NeutralizeKeepsLegible` | `crates/bossclaw-core/src/extract.rs:199-221` | Neutralising only inserts zero-width spaces: without them the text is as it was. |
| `Fence.NeutralizeShows` | `crates/bossclaw-core/src/extract.rs:199-221` | Neutralising keeps every character and writes each marker with a zero-width space inside; a text without markers is unchanged. |
| `Fence.PushFencedSource` | `crates/bossclaw-core/src/extract.rs:185-197` | Extends the buffer by one fenced source; a buffer that reads as a list of bodies then reads as that list with the neutralised source added at the end. |
| `Fence.PushedTokens` | `crates/bossclaw-core/src/extract.rs:185-197` | Whatever the buffer holds, pushing a source adds one begin marker, the body as plain text and one end marker. |
| `Fence.PushReadsBack` | `crates/bossclaw-core/src/extract.rs:185-197` | A pushed source reads back as one more body after whatever the buffer read as, for every source. |
| `Fence.PromptReadsBack` | `crates/bossclaw-core/src/extract.rs:185-221` | A marker-free opening followed by any list of pushed sources and marker-free text reads back as exactly the neutralised sources, in order. |
| `Fence.ReadCounts` | `crates/bossclaw-core/src/extract.rs:185-221` | The marks of a prompt that reads as n bodies are begin, end, begin, end and so on, n of each. |
| `Fence.BeginEndAlternates` | `crates/bossclaw-core/src/extract.rs:185-221` | That list has begin markers at its even places, end markers at its odd ones, and n of each kind. |
| `Fence.PromptMarksAlternate` | `crates/bossclaw-core/src/extract.rs:185-221` | So a marker-free opening followed by any n sources and marker-free text holds exactly n begin and n end markers, alternating. |
| `Sanitize.Truncate` | `crates/bossclaw-core/src/extract.rs:101-112` | The step-back loop (also at conflict.rs 193-202) returns the longest prefix of whole characters within the byte cap. |
| `Sanitize.TruncatedIsLongest` | `crates/bossclaw-core/src/extract.rs:101-112` | What is cut fits the cap, is a prefix, and no longer prefix of whole characters fits. |
| `Sanitize.StripExact` | `crates/bossclaw-core/src/summarize.rs:201-213` | Stripping leaves exactly the characters that are not stripped, and changes a text if and only if it holds one. |
| `Sanitize.StripKeepsOrder` | `crates/bossclaw-core/src/summarize.rs:201-213` | What is left are the characters at all the places that are not stripped, each once and in order. |
| `Prompts.FactIsClean` | `crates/bossclaw-core/src/reconcile.rs:52-81` | A sanitised fact contains no fence marker, although the strip that precedes the neutralisation can create one and a cap follows it. |
| `Prompts.FactIsShown` | `crates/bossclaw-core/src/reconcile.rs:52-81` | The fact reaches the prompt: the legible text of what is written is a prefix of the fact's, and all of it when the caps are not exceeded. |
| `Prompts.BuildRewritePrompt` | `crates/bossclaw-core/src/reconcile.rs:99-110` | The prompt around the sanitised fact and the fenced file reads as exactly one body, the neutralised file. |
| `Prompts.RewriteReadsBack` | `crates/bossclaw-core/src/reconcile.rs:99-110` | For every fact and every file the rewrite prompt reads back as exactly one body, the neutralised file. |
| `Prompts.RewriteShows` | `crates/bossclaw-core/src/reconcile.rs:99-110` | The rewrite prompt is the fixed words, the fact, the fixed words, and the file between its markers with each of its own markers broken. |
| `Prompts.BuildRecipePrompt` | `crates/bossclaw-core/src/mandate.rs:53-68` | The prompt around the sanitised recipe reads as whatever the caller's fenced block alone reads as. |
| `Prompts.RecipeReadsBack` | `crates/bossclaw-core/src/mandate.rs:53-68` | No recipe adds a marker: the prompt reads back as whatever the fenced block alone reads as. |
| `Prompts.RecipeShows` | `crates/bossclaw-core/src/mandate.rs:53-68` | The recipe reaches the prompt with all of its legible text. |
| `Prompts.RecipeOverSources` | `crates/bossclaw-core/src/mandate.rs:37-68` | With the sources fenced one after another, the prompt reads back as exactly those sources, for every recipe. |
| `Prompts.BuildComposePrompt` | `crates/bossclaw-core/src/summarize.rs:222-246` | The appending loops build the specified dossier prompt. |
| `Prompts.ComposeShows` | `crates/bossclaw-core/src/summarize.rs:222-246` | The dossier prompt holds the label, the type, the edge lines in order under their title, and every memory in order under its id, each in its place. |
| `Prompts.ComposeMarks` | `crates/bossclaw-core/src/summarize.rs:222-246` | The dossier prompt holds two markers per memory, plus exactly those of the interpolated label, type, edge lines and ids. |
| `Prompts.ComposeReadsBackExactly` | `crates/bossclaw-core/src/summarize.rs:222-246` | It reads back as exactly its memories if and only if the interpolated label, type, edge lines and ids hold no marker: none of them is neutralised. |
| `Prompts.MarkerLabelMisreads` | `crates/bossclaw-core/src/summarize.rs:172-183` | The failing family: a label that is itself a marker passes sanitising unchanged and breaks the reading. |
| `Judge.DefusedIsClean` | `crates/bossclaw-core/src/conflict.rs:95-101` | No snippet contains any of the four judge markers once defused. |
| `Judge.DefuseShows` | `crates/bossclaw-core/src/conflict.rs:95-101` | For every snippet, defusing keeps each plain character and writes each mark read in it as its own label. |
| `Judge.CleanSnippetUnchanged` | `crates/bossclaw-core/src/conflict.rs:95-101` | A snippet that holds none of the four markers is unchanged. |
| `Judge.ConflictPromptTokens` | `crates/bossclaw-core/src/conflict.rs:105-113` | For every pair of snippets the judge prompt holds the four markers once each, in order, around plain text. |
| `Judge.ConflictPromptReadsBack` | `crates/bossclaw-core/src/conflict.rs:105-113` | Whatever the two snippets contain, reading the prompt gives them back, the first first, on lines of their own, with every character kept and each marker written as its label. |
| `Keys.ChunkKeyRoundTrip` | `crates/bossclaw-core/src/index.rs:46-66` | Decoding an encoded chunk key gives the pair back, and its fold-back id, for every separator-free id and every index. |
| `Keys.DecodeThenEncode` | `crates/bossclaw-core/src/index.rs:56-59` | A key that decodes encodes back to itself if and only if its index is written without a plus sign and without leading zeros. |
| `Keys.EventIdAgrees` | `crates/bossclaw-core/src/index.rs:56-66` | Where a key decodes, the fold-back id is the decoded id. |
| `Keys.IndexKeyRoundTrip` | `crates/bossclaw-core/src/index.rs:89-116` | Note keys and passage keys share one index: a key decodes to its own reference if and only if it is a note, or a passage whose session id holds no separator and does not begin like a note key and whose index fits. |
| `Keys.PairKeyInjective` | `crates/bossclaw-core/src/index.rs:120-127` | Distinct references never share a pair key, whatever characters their ids contain. |
| `Keys.UnorderedPairKeyExact` | `crates/bossclaw-core/src/index.rs:132-135` | As long as no id holds the character that joins two keys, two unordered pair keys are equal if and only if the unordered pairs are. |
| `Keys.UnorderedPairKeyReads` | `crates/bossclaw-core/src/index.rs:120-135` | The key of a pair is the one of the two keys that comes first, U+001E, and the other; a note comes before a passage. |
| `Keys.PairKeysCollide` | `crates/bossclaw-core/src/index.rs:132-135` | Two disjoint pairs, two of whose ids do hold it, share a key. |
| `Keys.DecimalOfValue` | `crates/bossclaw-core/src/index.rs:46-59` | Printing the value of a digit string without leading zeros gives the string back. |
| `Conflict.Filter` | `crates/bossclaw-core/src/conflict.rs:259-283` | The filtering loop computes the eligible list in the order of the neighbours. |
| `Conflict.EligibleExactly` | `crates/bossclaw-core/src/conflict.rs:259-283` | What passes the filter is exactly what some neighbour gives whose similarity is a number at or above a floor that is one, and which neither set bars. |
| `Conflict.DedupAndCap` | `crates/bossclaw-core/src/conflict.rs:290-297` | The `seen` loop with its cap keeps the first sighting of each unordered pair, up to the cap. |
| `Conflict.DecideConflictSweep` | `crates/bossclaw-core/src/conflict.rs:255-297` | The result is the subject paired with each reference of the ranking, from the first on, as many as the cap allows, for every list that is a ranking of the eligible neighbours. |
| `Conflict.DedupRanks` | `crates/bossclaw-core/src/conflict.rs:284-293` | Sorting and keeping first sightings is that ranking: every eligible pair once, by its best neighbour, in order. |
| `Conflict.BeforeReads` | `crates/bossclaw-core/src/conflict.rs:284-289` | One entry goes before another if and only if it is more similar, or as similar and smaller in the first character in which their pair keys differ. |
| `Conflict.RankingUnique` | `crates/bossclaw-core/src/conflict.rs:284-289` | There is only one such ranking. |
| `Conflict.SweepIgnoresOrder` | `crates/bossclaw-core/src/conflict.rs:251-254` | Any permutation of the neighbours gives the same list, for all inputs. |
| `Conflict.RankingByReference` | `crates/bossclaw-core/src/conflict.rs:284-297` | When no id holds the joining character of pair keys, the ranking lists each eligible reference once, with its best similarity. |
| `Conflict.SortedUnique` | `crates/bossclaw-core/src/conflict.rs:284-289` | The order leaves no choice: two sorted lists of the same elements are one list. |
| `Index.HnswIndex.Add` | `crates/bossclaw-core/src/index.rs:273-289` | Appends the id and vector under the next slot, keeping the two maps inverse to each other; an id already present changes nothing. |
| `Index.HnswIndex.Remove` | `crates/bossclaw-core/src/index.rs:325-330` | Adds an indexed id to the tombstones and changes nothing else. |
| `Index.HnswIndex.Len` | `crates/bossclaw-core/src/index.rs:336-341` | The number of distinct ids added, removed or not. |
| `Index.HnswIndex.LastIndexed` | `crates/bossclaw-core/src/index.rs:332-334` | The id added last. |
| `Index.HnswIndex.Search` | `crates/bossclaw-core/src/index.rs:291-323` | Given an exact graph search with ties broken anyhow, returns the `k` nearest live ids, nearest first, each with its distance. |
| `Index.OverfetchSuffices` | `crates/bossclaw-core/src/index.rs:295-301` | Asking for `k` plus the number of tombstones always leaves the `k` nearest live hits after filtering, for every state of the index. |
| `Index.OverfetchIsNeeded` | `crates/bossclaw-core/src/index.rs:295-301` | And is needed in full: where the removed ids are the nearest, any smaller request leaves fewer than `k` live hits although there are `k` live ids. |
| `Index.NearestLiveCount` | `crates/bossclaw-core/src/index.rs:291-323` | Exactly the smaller of `k` and the number of live ids come back. |
| `Index.EnoughLive` | `crates/bossclaw-core/src/index.rs:295-301` | Tombstones hide at most one hit each. |
| `Recall.RankWithTies` | `crates/bossclaw-core/src/recall.rs:251-277` | The nested grouping loops give each entry one plus the number of strictly better entries, in sorted order. |
| `Recall.FuseScoredArms` | `crates/bossclaw-core/src/recall.rs:231-241` | The accumulated map holds exactly the ids of the arms, each with the sum of the contributions of its competition ranks. |
| `Recall.RrfFuse` | `crates/bossclaw-core/src/recall.rs:191-200` | The accumulated map holds exactly the ids of the lists, each with the sum of the contributions of its positions. |
| `Recall.RanksContribute` | `crates/bossclaw-core/src/recall.rs:231-277` | What an arm contributes to an id does not depend on how the arm was sorted. |
| `Recall.EntryEarns` | `crates/bossclaw-core/src/recall.rs:206-208` | One arm gives an id it scores once 1 / (60 + rank), its rank being one more than the number of entries with a strictly better score: lower ones or higher ones, as the arm says. |
| `Recall.FusionAdds` | `crates/bossclaw-core/src/recall.rs:231-241` | What several arms give is added up, and an arm that does not mention an id gives it nothing. |
| `Recall.PlaceEarns` | `crates/bossclaw-core/src/recall.rs:191-200` | Position-based fusion gives the id at place i, counted from 0, of a list that holds it once 1 / (61 + i). |
| `Recall.FusionIgnoresOrder` | `crates/bossclaw-core/src/recall.rs:243-250` | The fused score does not depend on the order in which any arm emitted its entries. |
| `Recall.TiedIdsFuseEqually` | `crates/bossclaw-core/src/recall.rs:219-226` | Ids tied in every arm fuse to exactly the same score. |
| `Recall.BetterEarnsMore` | `crates/bossclaw-core/src/recall.rs:205-208` | Within one arm a strictly better score earns strictly more. |
| `Recall.WithoutTiesFusionIsRrf` | `crates/bossclaw-core/src/recall.rs:212-222` | With all scores of each arm distinct, tie-aware fusion is plain reciprocal-rank fusion of the sorted id lists. |
| `Watch.Coalescer.OfferAt` | `crates/bossclaw-core/src/watch.rs:101-113` | Records the event, stamps the clock, and either buffers a token or requests a rescan; never more tokens than the bound. |
| `Watch.Coalescer.MarkDriven` | `crates/bossclaw-core/src/watch.rs:131-135` | Empties the channel and clears both flags, keeping the stamp. |
| `Watch.Coalescer.Queued` | `crates/bossclaw-core/src/watch.rs:151-153` | Counts the buffered tokens by taking them, so it changes the channel it reports on. |
| `Watch.BurstCoalesces` | `crates/bossclaw-core/src/watch.rs:58-68` | A burst of any length leaves the smaller of its length and the bound buffered, work pending, and a rescan requested exactly if it overflowed. |
| `Watch.RunsKeepInv` | `crates/bossclaw-core/src/watch.rs:280-354` | Every state of every interleaving of the callback and the loop satisfies the joint invariant. |
| `Watch.NoLostWakeup` | `crates/bossclaw-core/src/watch.rs:280-354` | A kept event with no drive attempt started after it always leaves the callback about to send, a token in the raw channel or in the loop's hand, or the coalescer pending, even when tokens were dropped. |
| `Watch.TokensConserved` | `crates/bossclaw-core/src/watch.rs:290-309` | Both channels stay within 256, and tokens sent are those dropped, buffered, in hand and offered. |
| `Watch.DrivesWaitForQuiet` | `crates/bossclaw-core/src/watch.rs:319-336` | A drive attempt starts only a full window of 2000 ms after the last offered event. |
| `Watch.BurstsCollapse` | `crates/bossclaw-core/src/watch.rs:66-68` | Drive attempts never outnumber the events sent and start at least a window apart. |
| `Watch.QuietProgress` | `crates/bossclaw-core/src/watch.rs:319-352` | With the callback silent every loop step brings an owed drive strictly nearer or starts it. |
| `Watch.QuietDrives` | `crates/bossclaw-core/src/watch.rs:319-352` | When the callback falls silent, an owed drive starts within 7 loop steps per token in the channel and 6 more. |
| `Lock.Home.AcquireOrRefuse` | `crates/bossclawd/src/lock.rs:147-179` | A socket that answers refuses, then a lock file naming a living process does, and either leaves both files alone; otherwise the socket goes, then the lock file, and ours is written, the first failing operation ending it with the files as they stand then; success leaves the lock file naming the caller and no socket. |
| `Lock.Home.DropGuard` | `crates/bossclawd/src/lock.rs:109-122` | Removes the lock file if and only if it still names this process and can be read and unlinked. |
| `Lock.AcquireKeepsInvIff` | `crates/bossclawd/src/lock.rs:147-179` | Of all the faults of one acquisition only a lock file that is there and cannot be read breaks the invariant, and it does if and only if somebody holds the lock, the socket does not answer, and no failing unlink stops the reclaim before it touches what the holder needs. |
| `Lock.RunsKeepInv` | `crates/bossclawd/src/lock.rs:124-179` | With acquisition as one step, a run of spawns, acquisitions with any faults, binds, closes, drops, crashes and reused pids, from any leftover files, keeps the invariant at every moment if and only if all its acquisitions are harmless in that sense. |
| `Lock.ReadableIsHarmless` | `crates/bossclawd/src/lock.rs:157-165` | They are whenever the lock file can be read, whatever else fails. |
| `Lock.SingleOwner` | `crates/bossclawd/src/lock.rs:1-6` | At every moment of a run whose acquisitions are harmless at most one process holds the lock, and the lock file names it. |
| `Lock.UnreadableLockSharesOwnership` | `crates/bossclawd/src/lock.rs:157-165` | The failing run: a second daemon that cannot read the lock file of a first reclaims it, and both hold the lock. |
| `Lock.OwnersUndisturbed` | `crates/bossclawd/src/lock.rs:153-170` | In such a run, while a process holds the lock, no step of another changes the lock file or the socket, but for a socket nobody serves any more, which an acquisition that cannot read the lock file may clear away. |
| `Lock.BindNeverFindsItTaken` | `crates/bossclawd/src/main.rs:104-117` | In such a run the bind of a process that acquired never finds the path taken. |
| `Lock.AcquiresIffStale` | `crates/bossclawd/src/lock.rs:147-179` | Reclaim stale, refuse live: after such a run a fault-free acquisition succeeds if and only if the lock file names no live pid. |
| `Lock.RecycledPidRefuses` | `crates/bossclawd/src/lock.rs:127-130` | A recycled pid can refuse an acquisition nobody contests. |
| `Lock.LateReclaimSafeIff` | `crates/bossclawd/src/lock.rs:24-31` | Reclaiming on an old probe keeps the invariant if and only if nobody holds the lock by then. |
| `Lock.InterleavedCallsShareOwnership` | `crates/bossclawd/src/lock.rs:24-31` | The failing run: two daemons probe before either reclaims, and both end up bound and serving. |
| `AtomicWrite.TempNameFor` | `crates/bossclaw-core/src/actuator.rs:458-468` | The temp never has the name of the target. |
| `AtomicWrite.Dir.WriteAll` | `crates/bossclaw-core/src/actuator.rs:537-552` | Short and interrupted writes notwithstanding, success means the temp holds exactly the bytes, and nothing else in the directory has changed at any point. |
| `AtomicWrite.Dir.Finalize` | `crates/bossclaw-core/src/actuator.rs:560-611` | The rename, per system and mode, publishes the temp or leaves the target alone; it never replaces an existing name in create mode or another inode in edit mode. |
| `AtomicWrite.Dir.AtomicWrite` | `crates/bossclaw-core/src/actuator.rs:504-611` | Whatever calls fail: success means exactly the bytes, flushed, and no temp, and every moment before the last call differed only by the temp; failure means that at no moment anything but the temp differed and that the directory ends as before, unless the temp's own unlink failed; it fails only if a call failed or the write was not to go through, and with nothing failing it succeeds exactly when it should. |
| `AtomicWrite.TargetReadsOldOrNew` | `crates/bossclaw-core/src/actuator.rs:470-481` | Where all of the write shows or none of it, the target reads as before or as the complete new file, and no third name has changed. |
| `AtomicWrite.Dir.EveryMoment` | `crates/bossclaw-core/src/actuator.rs:470-481` | So it reads after every single call of a write, whether that succeeds or fails. |
| `Frontmatter.StripFrontmatter` | `crates/memharness/src/frontmatter.rs:10-36` | The search loop ends and equals the line-by-line reading on every input. |
| `Frontmatter.StrippedAfterFence` | `crates/memharness/src/frontmatter.rs:5-36` | By position: an input that begins with a line of three dashes is cut after the first later line of exactly three dashes, with that line's newline if it has one. |
| `Frontmatter.StrippedNothing` | `crates/memharness/src/frontmatter.rs:7-9` | Without such an opening, or without such a later line, it is unchanged. |
| `Frontmatter.AfterFirstFence` | `crates/memharness/src/frontmatter.rs:5-9` | The line-by-line reading continues after the first line that is exactly the fence. |
| `Frontmatter.NoFenceNoLine` | `crates/memharness/src/frontmatter.rs:7-9` | Without a fence line the line-by-line reading finds no end. |
| `Frontmatter.SkipFourIsSafe` | `crates/memharness/src/frontmatter.rs:18-24` | Skipping four characters past a match inside a line never jumps over a fence line. |
| `Frontmatter.SkipThreeIsSafe` | `crates/memharness/src/frontmatter.rs:25-31` | With no newline-terminated match ahead, skipping three never jumps over a fence that ends the file. |
| `Keyword.StringReadsBack` | `crates/bossclaw-core/src/keyword.rs:41-44` | A term with its quotes doubled, and a closing quote, reads back as the term, whatever it contains. |
| `Keyword.EscapedParsesBack` | `crates/bossclaw-core/src/keyword.rs:40-51` | Every query parses back as exactly the `OR` list of its whitespace-separated terms, quotes and operator words included, and a blank one as one empty phrase. |
| `Keyword.TermsKeepVisible` | `crates/bossclaw-core/src/keyword.rs:41-43` | The terms are whitespace-free, keep every visible character in order, and are missing only for a blank query. |
| `Keyword.SplitSpaced` | `crates/bossclaw-core/src/keyword.rs:41-43` | Terms set apart by any whitespace split back into themselves. |
| `ConfigHistory.LatestById` | `apps/desktop/src/configVersioning.ts:726-739` | The scan maps each id to its first record of the highest version. |
| `ConfigHistory.Store.ApplyChange` | `apps/desktop/src/configVersioning.ts:816-879` | Appends the object, with its id set and normalised as a whole, under the next version and returns the undo token. |
| `ConfigHistory.ApplyShows` | `apps/desktop/src/configVersioning.ts:816-879` | Record by record, on every file: what was stored is kept normalised, and one record is added with the id put in, normalised, at the time of the change, numbered one beyond the id's latest version, which the token names, or 1. |
| `ConfigHistory.Store.RollbackToVersion` | `apps/desktop/src/configVersioning.ts:881-926` | Appends the target version's data as the next version, or fails and saves nothing when there is no such version. |
| `ConfigHistory.RollbackShows` | `apps/desktop/src/configVersioning.ts:881-926` | It fails exactly when the id has no record of that version, and otherwise adds one with that record's data as read and normalised again, one version beyond the latest. |
| `ConfigHistory.Store.UndoChange` | `apps/desktop/src/configVersioning.ts:928-974` | Rolls back to the token's version, failing and saving nothing when there is none, or archives the object the change created. |
| `ConfigHistory.UndoShows` | `apps/desktop/src/configVersioning.ts:928-974` | Undoing a creation never fails and adds the archived form of what is current, or nothing if the id has no record; undoing any other change fails exactly when that version is gone and otherwise adds its data. |
| `ConfigHistory.RunsKeepHistory` | `apps/desktop/src/configVersioning.ts:816-974` | Over every run of apply, rollback and undo the history only grows, the versions of each id stay exactly 1..n in order, and reading changes nothing, given an idempotent normaliser. |
| `ConfigHistory.LatestIsVersionN` | `apps/desktop/src/configVersioning.ts:726-739` | From an empty file on, the latest record of an id is the one record whose version is the number of its records. |
| `ConfigHistory.UndoRestores` | `apps/desktop/src/configVersioning.ts:928-941` | Undoing a change succeeds and makes the data that was current before it current again, whatever was applied, rolled back or undone in between. |
| `ConfigHistory.UndoCreationArchives` | `apps/desktop/src/configVersioning.ts:942-974` | Undoing a creation archives what is current by then and changes nothing else of it, given a normaliser that settles objects carrying their id and leaves the archive mark alone. |
| `ConfigHistory.RunsAsRead` | `apps/desktop/src/configVersioning.ts:690-724` | For a normaliser that settles only at the second time, as the one of missions does, what a reader sees of a run is the run of the kind that normalises twice, which is idempotent. |
| `ConfigHistory.RunsKeepHistoryAsRead` | `apps/desktop/src/configVersioning.ts:816-974` | So for these too the history as read only grows, and its versions stay exactly 1..n in order. |
| `ConfigHistory.UndoRestoresAsRead` | `apps/desktop/src/configVersioning.ts:928-941` | And undoing a change makes what a reader saw as current before it what a reader sees as current again, whatever was done in between. |
| `Schedule.TimeReadsBack` | `apps/desktop/src/configVersioning.ts:313-324` | A formatted hour and minute read back if and only if they are a time of day. |
| `Schedule.NormaliseIdempotentIff` | `apps/desktop/src/configVersioning.ts:347-502` | Normalising a normalised schedule changes nothing if and only if the input was not an old cron text with an hour above 23 or a minute above 59. |
| `Schedule.NormaliseSettles` | `apps/desktop/src/configVersioning.ts:347-502` | For every input the second normalisation settles it. |
| `Schedule.FixedCronReadsBack` | `apps/desktop/src/configVersioning.ts:391-427` | The cron text printed for a fixed time reads back as that time, for every two-digit hour and minute. |
| `Schedule.ImpossibleTimesExist` | `apps/desktop/src/configVersioning.ts:391-427` | The failing family is exactly the printed times no clock shows, such as minute 75 of hour 99. |
| `Schedule.NormalisedIsShaped` | `apps/desktop/src/configVersioning.ts:436-502` | Every normalised schedule has exactly the fields of its kind, within range, and a trimmed cron text that is not empty. |
| `Schedule.DerivedCronAgrees` | `apps/desktop/src/configVersioning.ts:347-378` | A record without a cron text of its own gets one that reads back as the interval, or as the hour and minute its time reads, with its kind and weekday. |
| `Schedule.RecordKeepsFields` | `apps/desktop/src/configVersioning.ts:441-494` | A record keeps its kind, a valid time, weekday and interval, and a cron text of its own; without them it gets daily, 9:00, Monday and 15 minutes, and long intervals are cut to a day. |
| `Schedule.LegacyKeepsMeaning` | `apps/desktop/src/configVersioning.ts:380-434` | An old cron text of an interval or of a fixed time normalises to one that reads the same, any other to a custom schedule of itself. |
| `Schedule.EveryCronReadsBack` | `apps/desktop/src/configVersioning.ts:382-390` | The cron text printed for an interval reads back as that interval. |
| `Missions.NextDailyFrom` | `apps/desktop/src/missions.ts:133-142` | The earliest instant strictly after `from` at that minute of the day. |
| `Missions.NextWeekdaysFrom` | `apps/desktop/src/missions.ts:144-150` | The earliest such instant on a workday; the weekend-skipping loop ends. |
| `Missions.NextWeeklyFrom` | `apps/desktop/src/missions.ts:152-166` | The earliest such instant on the chosen weekday. |
| `Missions.NextEveryMinutesFrom` | `apps/desktop/src/missions.ts:168-183` | An instant after `from` and at most one interval later: the earliest on the grid of intervals counted from the start of the hour. |
| `Missions.ComputeNextRunAt` | `apps/desktop/src/missions.ts:185-200` | Each kind of schedule gets the promise of its own function: the minute of the day is that of the time given or 9:00, the day a workday or the weekday given or Monday; a custom one is due within the hour. |
| `Missions.GridOnTimeline` | `apps/desktop/src/missions.ts:168-183` | The grid is the instants whole multiples of the interval after the start of the hour `from` is in. |
| `Missions.SteadyIff` | `apps/desktop/src/missions.ts:168-183` | Runs settle into full intervals from every starting minute if and only if the interval divides the hour or is whole hours. |
| `Missions.MinuteAfter` | `apps/desktop/src/missions.ts:173-176` | The minute past the hour of an instant some minutes later wraps at the hour, across midnight too. |

## Left out

- IngestLoop.EventLog.IngestGrant: takes file names as UTF-8; the source keys on lossily converted paths, so two names can meet in one.
- TreeSync.IngestAll: the query for the active grants that precedes the first walk and the rebuild of the recall indexes that follows the last grant are not modelled; either may end the run with an error, and neither appends anything or touches the projection.
- TreeSync.EveryFileProjected: files that change, appear or move while the run goes on are not modelled here; `IngestLoop.EventLog.IngestAll` and `History.ThroughoutExactly` allow any files.
- Walk.Walker.Walk: errors of the sink are left out, since the ingest loop's sink cannot fail; the modulus of the clock reads inside a directory is a parameter.
- Conflict.DecideConflictSweep: similarities are reals, so two distances that round to one float similarity stay apart.
- Recall.FuseScoredArms: sums are reals, so the float error of adding contributions in another order is not modelled.
- Recall.RankWithTies: the library's stable sort is an insertion sort; entries of equal score may stand in another order, which no rank depends on.
- Watch.RunsKeepInv: the disconnect of the raw channel cannot happen while the loop owns the watcher, so it is no step; which paths count as self-written is a free choice of the callback.
- Lock.RunsKeepInv: the operations inside one acquisition are not interleaved with others except in `Lock.LateReclaimSafeIff`.
- AtomicWrite.Dir.AtomicWrite: no foreign process writes into the directory meanwhile; modes, symbolic links and the loss of unflushed data at power failure are not modelled beyond the flush that precedes the rename.
- Index.HnswIndex.Search: the approximation of the graph search, its capacity hint and its `ef` parameter are not modelled.
- ConfigHistory.Store.ApplyChange: audit entries, diffs, redaction and concurrent saves of one file are not modelled; nor is the conversion of an unversioned file, whose entries all become version 1.
- ConfigHistory.Store.ApplyChange: the clock and the random ids that a normaliser fills in for missing fields are fixed as part of it.
- ConfigHistory.Store.UndoChange: the proposal it builds for the archive is reduced to its data.
- Keyword.EscapedParsesBack: of the query grammar only strings, barewords, blanks and `OR` are modelled; the escaped text uses nothing else.
- Frontmatter.StripFrontmatter: positions are characters instead of bytes; the fence is ASCII, so both count alike.
- Missions.NextDailyFrom: local time has no daylight-saving changes here.
- Sanitize.Truncate: the two other callers of the same loop, in reconcile.rs and summarize.rs, use it with their own caps and are not separate members.
- The order of the values a fold returns, which the source takes from a sorted map: the folds here return maps.
- `append`, signing, hashing and the encrypted store of `log.rs`: appending is extending a sequence.
- `normalize_ts`: calendar arithmetic of another library.
- The Windows branches of the walk and the actuator.
- `mandate_lineage` (sort and deduplicate a list) and `capDiff` (keep the first 49 items of three lists and count the rest): one reading of the body settles them.
- `classify_op_existence`, `resolve_decision`, `citation_floor`, `intersect_keep_floor`, the diff guard: one branch or one filter each.
- Never-touch name lists, parser routing and file-type detection: tables.
- Network, relay, model clients, MCP glue, user interface and subprocess sandbox.
