# Court monitor: verified models

Dafny models of the parts of the court monitor that group, copy, split and order things, with
proofs of what they promise. `dafny verify dfyconfig.toml` checks all of it.

**The event graph.** Reports of events, each told by one publication, are drawn as one event when
they have one type, one known day and a common binding person, through any chain of such reports.
`Reports` folds query rows into reports, `UnionFind` is the parent map with path halving,
`Clusters` the union loops and the reading off, `EventLaws` what the events then satisfy.
`Locality` shows that a page, which reads only the reports placed where its seeds are, draws the
events of the base with its seeds; `SharedEvents` says when two pages draw the same event.
`NodeIds`, `GraphPayload`, `Mentions`, `EventNeighbours` and `EventRequests` are the payloads: no
edge without both its nodes, nothing lost to an id already taken, the latest events and the first
neighbours drawn, and drawn plus counted is all.

**Copied lists.** `TableSync` is the session, the plausibility guard and the removal; `ListSyncs`
the syncs of articles and of known persons; `SyncLaws` what any export, any repeat and any run of
exports makes of a list. `ArticleKeys` keys a charge by its numbers.

**Dates in cells.** `Patterns` proves a matcher without backtracking right for patterns of
character classes. `CellDates` is the scanner of the base's cells, `FileDates` the rewriting of a
file's date column, and what the two readers owe each other.

**The parallel load.** `Lanes` deals the sources to lanes, `LaneEnv` writes the limit a child lane
reads, `LaneLoad` is the load in one process and in lanes. `LaneRepeats`, `LaneSchedules` and
`LaneRaces` say when the two agree, whenever the runs start and end, and `LaneCommand` says it of
the command. `LaneStop` stops the lanes under one shared grace.

**Batches and the cycle.** `Batches` runs chunks in any completion order, `Extraction` adds up
their results. `Cycle` waits for the loads and logs a sliding tail. `Candidates` picks and orders
the candidates' table. `WorkspaceClosure` is the closure of the packaging check.
`EventDateMigration` and `AnswerKeyMigration` are two data migrations and their way back.

`Dicts`, `Sorting`, `Texts`, `Digits` and `Wrappers` hold Python's dict, sort and string order.

## Where the code does less than is said of it

The models follow the code. These promises hold only on a condition, proved exactly:

- *Opening any report of an event gives the same node* (`docs/wiki/Investigation-Graph.md:103-104`).
  A report of an article's older extraction run is read only where it is asked for, so what is drawn
  depends on who asks. `Locality.ReachedFromAnyReport` gives the condition for the reports of an
  event, `SharedEvents.DrawnOpensAsItselfIff` for the node a person's page draws,
  `SharedEvents.TwoPeopleShareEventIff` for two people an event names, and
  `SharedEvents.OneEventFromEverywhereIff` for all starts at once.
- *An event node is expandable.* Its id is accepted up to nine digits, and the id column goes
  further: `NodeIds.EventNodeOpensIff`.
- *An article of a Code is one node of its own.* A colon in a Code's name can merge two:
  `NodeIds.ArticleNodesMergeIff`.
- *Each sync is idempotent* (`packages/court-analysis/src/airtable/repository.py:3`). The table is;
  the run is not always. A list of 1 to 99 articles refuses its own copy, and a people list refuses
  the repeat of an export of 1 to 99 ids that left it any row: `SyncLaws.ArticlesRepeatAcceptedIff`
  and `SyncLaws.PeopleRepeatAcceptedIff`.
- *A people list never collapses.* The guard counts ids that leave no row, because their record has
  no name: `SyncLaws.PersonsKeepTheFloorIff`, with `SyncLaws.PeopleListCanCollapse`.
- *The parallel load prints and exits as the sequential load would*
  (`apps/court-monitor/src/cli/monitoring.py:212`, `apps/court-monitor/src/cli/monitoring.py:237`).
  It does when it has one lane, or when the sources are news and all differ, but for the output of a
  load one source ends. The default list is not such a list: it holds the registry
  `memopzk-figurants`, and a child refuses a lane with a source that is not news, so that the load in
  lanes always exits with 1. The list of the environment may name a source twice; then a child drops
  the repeat of its lane, lanes may swap the results, and a run beside another of its source is
  refused. `LaneCommand.CommandIsSequentialIff`, with `LaneCommand.RegistryIsRefused` and
  `LaneCommand.GivenTwice`.

One more is a loss the code does not speak of: not all that is new in a tail that slid is logged when
the tail reads on from the whole of the previous one, or no longer holds the anchor where it was and
yet shows it: `Cycle.SlidTailLosesNothingIff`, with `Cycle.RepeatedLineIsNotLogged`.

## What is assumed

- The queries of `processing.read` and `ingestion.read` return what their names and docstrings say:
  `Locality` states them as functions of the base.
- The rows of one report agree on what they say of the report itself.
- Ids of events and articles are not negative; a role is an identifier without `>`, and the key of
  an entity names one group; `related_people` names a person once.
- A host allows at least one request, which `FetchLimits` checks when it is made.
- What a source comes to, each time it is given, is the same in either load unless its child
  refuses it as no news or `start_run` refuses it beside another run of this load; any outcome and any
  times of the runs are allowed.
- A child is granted the signal of its parent's death (`apps/court-monitor/src/cli/monitoring.py:66-82`);
  a child that is not loads nothing and exits with 1, as one refused for a source that is not news.
- A session that raises before its commit is rolled back by its caller.
- A sleep of thirty seconds moves the monotonic clock by at least that.

## Model

| member | source | states |
|---|---|---|
| `UnionFind.Forest.Find` | apps/court-monitor/src/web/investigation_graph.py:282-286 | Path halving ends on every reachable parent map, returns the report's root, and every report keeps exactly the root it had; a root is what climbing the map comes to rest at |
| `UnionFind.Forest.Join` | apps/court-monitor/src/web/investigation_graph.py:294 | The tree of one report is hung under the root of the other, and no other tree changes; the map stays a forest |
| `UnionFind.RootIsUnique` | apps/court-monitor/src/web/investigation_graph.py:282-286 | In a forest a report climbs to exactly one root |
| `UnionFind.SameRoots` | apps/court-monitor/src/web/investigation_graph.py:284-285 | Re-hanging that keeps the trees changes no report's root, in either direction |
| `UnionFind.HangUnder` | apps/court-monitor/src/web/investigation_graph.py:294 | Hanging one root under another (or under itself) leaves a forest: no cycle can arise, and a rank still falls on every step up |
| `Clusters.TakeReport` | apps/court-monitor/src/web/investigation_graph.py:292-294 | One report, its binders taken in any order, ends in one tree with the first report of each of its keys, and trees still hold only connected reports |
| `Clusters.TreesAreComponents` | apps/court-monitor/src/web/investigation_graph.py:288-294 | Once every report is taken under all its keys, two reports share a tree exactly when a chain of bound reports joins them: the "first report" index loses no connection |
| `Clusters.Unite` | apps/court-monitor/src/web/investigation_graph.py:280-294 | The whole union loop, in any order of the reports: trees are exactly the connected components |
| `Clusters.ReadOff` | apps/court-monitor/src/web/investigation_graph.py:297-299 | Reading off in id order groups the reports by root, each group ascending, the groups in ascending order of their least report |
| `Clusters.Cluster` | apps/court-monitor/src/web/investigation_graph.py:272-300 | Every event is a whole connected component in ascending id, named by its least id; the events come in strictly ascending names; every report is in some event |
| `EventLaws.SameEventIffChained` | apps/court-monitor/src/web/investigation_graph.py:272-300 | Two reports are one event if and only if a chain of reports of one type, one known day and a shared binding person joins them |
| `EventLaws.EventsPartition` | apps/court-monitor/src/web/investigation_graph.py:297-300 | A report is in exactly one event, and an event holds only reports |
| `EventLaws.ClusteringIsUnique` | apps/court-monitor/src/web/investigation_graph.py:289-299 | The list of events is settled by the reports alone: not by the order of the dict, nor of any set of binders |
| `EventLaws.EventsNeverSplit` | apps/court-monitor/src/web/investigation_graph.py:295-296 | New reports never split an event |
| `EventLaws.EventsKeepTheirNames` | apps/court-monitor/src/web/investigation_graph.py:295-296 | When new reports have larger ids, an event keeps its name, and a merged event takes the least of the old names |
| `Reports.FoldRows` | apps/court-monitor/src/web/investigation_graph.py:260-269 | The fold gathers, for each report, the least role over all its rows of each person and exactly the persons some row binds |
| `Reports.FoldIgnoresOrder` | apps/court-monitor/src/web/investigation_graph.py:260-269 | Two folds of the same rows, in any orders and with any repetitions, give equal reports |
| `Reports.RoleOfIsLeast` | apps/court-monitor/src/web/investigation_graph.py:255-257 | The role of a person over an event exists exactly when some row of the event names them; some row gives it, and no row gives a lesser one |
| `Reports.KeptRoleIsFirst` | apps/court-monitor/src/web/investigation_graph.py:264-266 | The role kept of a person never has the greater character where it first differs from a role some row of the report gives them, nor goes on from one |
| `Reports.EventRoleIsFirst` | apps/court-monitor/src/web/investigation_graph.py:255-257 | The same of the role over a whole event: "defendant" is never lost to "target" |
| `Texts.FirstDifference` | apps/court-monitor/src/web/investigation_graph.py:257-266 | Of two roles the one with the lesser character at the first difference comes first, and not the other way |
| `Locality.LocalIsComplete` | apps/court-monitor/src/web/investigation_graph.py:176-198 | What the queries keep is exactly the seeds and the current reports whose (type, day) is a seed's, own date or publication day alike |
| `Locality.ReadEvents` | apps/court-monitor/src/web/investigation_graph.py:171-219 | Reading any answer of the people query, then folding and clustering, gives the clustering of exactly the reports kept |
| `Locality.OpenEvent` | apps/court-monitor/src/web/investigation_graph.py:416-424 | An id opens nothing exactly when its report is not read, else the event that holds it, ascending |
| `Locality.SeedsGetTheirWholeEvents` | apps/court-monitor/src/web/investigation_graph.py:171-219 | Locality: an event that holds a seed is read locally if and only if it is an event of the whole base, report for report and under the same name |
| `Locality.PersonSeesWholeEvents` | apps/court-monitor/src/web/investigation_graph.py:338-349 | A person is shown exactly the events of the base as read for them (every current report and their own of older runs) that name them, each with the role it has there |
| `Locality.ReachedFromAnyReport` | apps/court-monitor/src/web/investigation_graph.py:416-424 | Every report of an event opens that very event if and only if the report it was reached from is of its article's latest run, or is alone in its event (see below) |
| `Locality.CurrentReportsAgree` | apps/court-monitor/src/web/investigation_graph.py:416-424 | From a report of a latest run, every report of its event gives the same event |
| `SharedEvents.SharedEventIff` | apps/court-monitor/src/web/investigation_graph.py:171-198 | Two starts that ask for reports of one event are given the same event if and only if they read alike what older runs say of it: its older-run reports, and those bound to it |
| `SharedEvents.DrawnOpensAsItselfIff` | apps/court-monitor/src/web/investigation_graph.py:416-424 | The node of an event drawn for a person opens as that very event if and only if every other report of the event is of a latest run |
| `SharedEvents.TwoPeopleShareEventIff` | apps/court-monitor/src/web/investigation_graph.py:338-349 | An event drawn for one person is drawn, the same reports under the same name, for another it names if and only if each of its older-run reports names the other, and each older-run report bound to it that names the other names the one |
| `SharedEvents.OneEventFromEverywhereIff` | apps/court-monitor/src/web/investigation_graph.py:171-219 | An event of latest runs is one and the same from every start if and only if no older-run report is bound to it |
| `SharedEvents.TwoPeopleTwoEvents` | apps/court-monitor/src/web/investigation_graph.py:338-349 | A concrete base whose two people are shown one report under two node ids |
| `SharedEvents.OlderOpensMoreThanItsEvent` | apps/court-monitor/src/web/investigation_graph.py:416-424 | In the same base a report opens an event of two, of which the other opens only itself |
| `NodeIds.PersonNodeOpens` | apps/court-monitor/src/web/investigation_graph.py:503-507 | A drawn person's node id opens that person, whatever characters the key holds |
| `NodeIds.EventNodeOpensIff` | apps/court-monitor/src/web/investigation_graph.py:503-510 | A drawn event's node id opens that event if and only if the id is below 10^9; from there on it is refused although the node is marked expandable |
| `NodeIds.PersonEdgesDiffer` | apps/court-monitor/src/web/investigation_graph.py:118 | Edges of one person to two events never share an id |
| `NodeIds.OutgoingEdgesDiffer` | apps/court-monitor/src/web/investigation_graph.py:118 | Edges of one event to two neighbours of one kind never share an id |
| `NodeIds.IncomingEdgesDiffer` | apps/court-monitor/src/web/investigation_graph.py:118 | Edges of two people to one event never share an id, so none is silently dropped |
| `NodeIds.OpensOnly` | apps/court-monitor/src/web/investigation_graph.py:503-510 | A node opens as a person if and only if it is "person:" and anything more, as an event if and only if it is "event:" and one to nine digits, with that key and that number; nothing else opens |
| `NodeIds.DocumentedNames` | docs/wiki/Investigation-Graph.md:69-71 | The ids the documentation gives: a person, an event, a publication, a court and an article |
| `GraphPayload.Graph.AddNode` | apps/court-monitor/src/web/investigation_graph.py:104-106 | A node is added unless its id is taken; the payload keeps every edge anchored at both ends |
| `GraphPayload.Graph.AddEdge` | apps/court-monitor/src/web/investigation_graph.py:108-130 | An edge between drawn nodes is added once, under its own id; no edge ever lacks a node |
| `GraphPayload.Graph.AddCut` | apps/court-monitor/src/web/investigation_graph.py:132-134 | Only a positive remainder is counted |
| `GraphPayload.DrawEvents` | apps/court-monitor/src/web/investigation_graph.py:338-349 | As many events are drawn as name the person, or the limit; each with its root, day and role, the latest first, and none left out is of a later day, or of the same day and a greater root, than one drawn; one edge for each, none lost to an id already taken, and the rest is counted |
| `GraphPayload.LatestAreFirst` | apps/court-monitor/src/web/investigation_graph.py:345 | The sort permutes the events, and none that the limit cuts is later than one that is drawn |
| `GraphPayload.FirstShownAreLatest` | apps/court-monitor/src/web/investigation_graph.py:340-346 | The events drawn are the latest of those that name the person, and the total the cut is taken from is the number of all of them |
| `GraphPayload.InitialGraph` | apps/court-monitor/src/web/investigation_graph.py:364-384 | The first payload: the person in the centre, one edge to each of their latest events (as for `DrawEvents`, with the limit 20) and to each person of the same publications, the nodes exactly the centre and the other ends of these edges, each of the type its id says, and the count of the rest |
| `GraphPayload.DrawnPlusCut` | apps/court-monitor/src/web/investigation_graph.py:346-349 | Drawn plus counted equals all, for any total and limit |
| `EventNeighbours.Publications` | apps/court-monitor/src/web/investigation_graph.py:429-432 | The publications that tell an event, each once, in the order its reports first name them |
| `EventNeighbours.FirstsAreFirst` | apps/court-monitor/src/web/investigation_graph.py:429-431 | That order is of first appearance: distinct, complete, an earlier one met before a later one |
| `Mentions.TookReads` | apps/court-monitor/src/web/investigation_graph.py:445-470 | The loop over the mentions keeps each person by their first mention, each organisation and each article of a Code once, and every unresolved name once; nothing else |
| `Mentions.PeopleInOrder` | apps/court-monitor/src/web/investigation_graph.py:456 | The people stand in the order of the mentions that first name them, each with that very mention |
| `Mentions.OrgsInOrder` | apps/court-monitor/src/web/investigation_graph.py:458-462 | The organisations stand in the order of the mentions that first name them, each with its role |
| `Mentions.ArticlesInOrder` | apps/court-monitor/src/web/investigation_graph.py:463-470 | The articles stand in the order of the mentions that first name them |
| `EventNeighbours.ReadMentions` | apps/court-monitor/src/web/investigation_graph.py:449-470 | That loop as it draws: one edge for each article, after the publications' |
| `EventNeighbours.EdgesAre` | apps/court-monitor/src/web/investigation_graph.py:432-486 | The edges one by one: evidence to each publication, legal_basis to each article, its role to each organisation, and from each person by their role; as many as there are of these |
| `EventNeighbours.DrawnIsAll` | apps/court-monitor/src/web/investigation_graph.py:432-491 | All publications, or the first ten; all organisations and people, or the first twenty of each in the order first named; every article; and of each kind what is drawn and what is counted together are all there is |
| `EventNeighbours.TypedAsNamed` | apps/court-monitor/src/web/investigation_graph.py:397-401 | An article is typed criminal if and only if the mention that first names it gives the criminal Code |
| `EventNeighbours.ExpandEvent` | apps/court-monitor/src/web/investigation_graph.py:425-492 | An event's payload: the first ten publications and the first twenty organisations and people in the order first named, every article, each with exactly one edge; what is drawn of each kind and what is counted together are all that was found; the nodes are exactly the event and the other ends of the edges, each of the type its id says |
| `EventRequests.OpenEventPayload` | apps/court-monitor/src/web/investigation_graph.py:416-492 | The whole request: nothing for an id whose report is not read; else the payload of the event that holds it, named by its least report, with the publications of its reports and what their mentions name, drawn or counted as for `ExpandEvent` |
| `EventRequests.FirstIsLeast` | apps/court-monitor/src/web/investigation_graph.py:422-426 | That name is the least id of the event |
| `NodeIds.ArticleNodesMergeIff` | apps/court-monitor/src/web/investigation_graph.py:400 | Two references share an article node if and only if they name one article of one Code, or one Code's name goes on after a colon where the other's ends, and the article says the rest |
| `NodeIds.PlainCodesKeepTheirArticles` | apps/court-monitor/src/web/investigation_graph.py:400 | Codes without a colon in their names never share an article node |
| `NodeIds.ColonMergesArticles` | apps/court-monitor/src/web/investigation_graph.py:400 | Two concrete references that share one |
| `NodeIds.OrgNodesDiffer` | apps/court-monitor/src/web/investigation_graph.py:462 | Organisations of two roles, or of two names, never share a node |
| `EventNeighbours.EdgesDiffer` | apps/court-monitor/src/web/investigation_graph.py:432-486 | No two of these edges get one id, across all four kinds |
| `TableSync.Session.DropVanished` | packages/court-analysis/src/airtable/replace.py:114-139 | What is kept stands, everything else goes, and the count is of what went, on the emptying branch too |
| `TableSync.WriteEntry` | packages/court-analysis/src/airtable/repository.py:149-157 | A usable record is added, left or overwritten, and counted as what happened to it |
| `TableSync.Finish` | packages/court-analysis/src/airtable/repository.py:158-184 | Guard, then removal, then commit: a refusal or a violated key leaves the committed table as it was |
| `TableSync.RemovalIsSafeIff` | packages/court-analysis/src/airtable/replace.py:88-111 | The guard as written: nothing held before, or at least 100 rows and at least the share 0.25 of those held |
| `SyncLaws.ClashesIff` | packages/court-analysis/src/airtable/articles.py:97-132 | A commit fails on a key if and only if two usable records carry one id the table did not hold |
| `ListSyncs.ArticlesAreCopied` | packages/court-analysis/src/airtable/articles.py:97-132 | After a replacing sync an id is held if and only if some record of it has a text with a digit, and its row is that text, its key and active, of the last such record; without replacing the other rows stay as they were; the errors are exactly the records without a digit |
| `ListSyncs.SyncArticles` | packages/court-analysis/src/airtable/articles.py:69-139 | All or nothing, for any export and any failing record: the committed list is exactly the accepted result with its counters (record by record as in `ArticlesAreCopied`), or exactly what it was |
| `ListSyncs.SyncKeyed` | packages/court-analysis/src/airtable/articles.py:97-139 | The same for any reading of a key from a text; with `article_key`, `ArticlesAreCopied` says what each record writes |
| `ListSyncs.PersonsAreCopied` | packages/court-analysis/src/airtable/repository.py:120-184 | An id is held if and only if some record of it has a name, or a row had it and - when replacing - the export lists it; its row is the last named record, else the old row; the errors are exactly the nameless records |
| `ListSyncs.SyncKnownPersons` | packages/court-analysis/src/airtable/repository.py:103-184 | All or nothing for the people list, whose guard and keep-set count every listed id; the committed list is that of `PersonsAreCopied` |
| `SyncLaws.ArticlesBecomeTheExport` | packages/court-analysis/src/airtable/articles.py:112-137 | After a replacing sync the articles are exactly the usable records' ids, each with the values of its last usable record |
| `SyncLaws.PersonsBecomeTheExport` | packages/court-analysis/src/airtable/repository.py:135-184 | After a replacing sync the people are exactly the named records and the old rows whose nameless record is still listed, those unchanged |
| `SyncLaws.NothingLostWithoutReplace` | packages/court-analysis/src/airtable/repository.py:147-161 | Without `replace` no id is lost, and a row no usable record names keeps its values |
| `SyncLaws.CountersAddUp` | packages/court-analysis/src/airtable/repository.py:118-161 | received = created + updated + unchanged + errors, and rows after + removed = rows before + created |
| `SyncLaws.SyncTwiceIsOnce` | packages/court-analysis/src/airtable/repository.py:103-161 | The same export again leaves the table unchanged |
| `SyncLaws.RepeatReportsNoChange` | packages/court-analysis/src/airtable/repository.py:149-157 | The repeat creates and removes nothing, and updates nothing if and only if records of one id agree on what they write |
| `SyncLaws.RepeatAcceptedIff` | packages/court-analysis/src/airtable/replace.py:88-111 | For any ids kept that hold the usable ones: the repeat of an accepted export is accepted if and only if it left the list empty or keeps at least a hundred ids |
| `SyncLaws.ArticlesRepeatAcceptedIff` | packages/court-analysis/src/airtable/articles.py:126-137 | For articles: if and only if the export has no usable record, or at least a hundred |
| `SyncLaws.PeopleRepeatAcceptedIff` | packages/court-analysis/src/airtable/repository.py:180-184 | For people: if and only if the export left the list empty, or lists at least a hundred ids, named or not |
| `SyncLaws.SmallListRefusesItsOwnCopy` | packages/court-analysis/src/airtable/articles.py:134-137 | A concrete list that is accepted as a first fill and refused as its own copy |
| `SyncLaws.OneRunKeepsAQuarter` | packages/court-analysis/src/airtable/replace.py:88-111 | One run over a filled articles list, accepted or refused, leaves at least a quarter of it, and at least a hundred rows if anything changed |
| `SyncLaws.ArticlesNeverCollapse` | packages/court-analysis/src/airtable/replace.py:88-139 | Over any run of exports a filled articles list is never emptied, never below a hundred rows once changed, and shrinks at most fourfold a run |
| `SyncLaws.EmptyingBranchIsIdle` | packages/court-analysis/src/airtable/replace.py:122-128 | The branch that deletes every row never removes one: the guard refuses the empty export of a filled list first |
| `SyncLaws.PersonsKeepTheFloorIff` | packages/court-analysis/src/airtable/repository.py:180-184 | An accepted export leaves a filled people list a hundred rows and a quarter of itself if and only if the guard would also pass without the listed ids that leave no row |
| `SyncLaws.NamedExportsKeepTheFloor` | packages/court-analysis/src/airtable/repository.py:180-184 | When every record names somebody, the floor holds |
| `SyncLaws.NamelessExportEmptiesTheList` | packages/court-analysis/src/airtable/repository.py:180-184 | Any export that passes the guard but names nobody and lists only unknown ids empties the table |
| `SyncLaws.PeopleListCanCollapse` | packages/court-analysis/src/airtable/repository.py:180-184 | A concrete filled people list that an accepted export empties |
| `ArticleKeys.KeyIsEmptyIff` | packages/court-analysis/src/airtable/articles.py:63-66 | A text has no key if and only if it has no digit |
| `ArticleKeys.ArticleAlone` | packages/court-analysis/src/airtable/articles.py:47-66 | An article without a part is keyed by its number, whatever words stand around |
| `ArticleKeys.ArticleWithPart` | packages/court-analysis/src/airtable/articles.py:47-66 | An article with a part is keyed "number.part", whatever stands between, around and after |
| `ArticleKeys.KeyOfKey` | packages/court-analysis/src/airtable/articles.py:50-51 | A key is its own key, so a charge as the news writes it meets the article of the list |
| `Patterns.TakeIffFits` | packages/court-analysis/src/airtable/person_details.py:61-65 | Matching a pattern field by field, longest run first and without stepping back, is right: it answers with a split exactly when the split fits the pattern and its last run is not cut short |
| `Patterns.FullMatchIff` | packages/court-analysis/src/airtable/files.py:85-87 | The same for a pattern anchored at both ends |
| `CellDates.MatchIffWritten` | packages/court-analysis/src/airtable/person_details.py:61-65 | The date pattern matches at a place if and only if a date in one of its three forms is written there, and takes all of it |
| `CellDates.Dates` | packages/court-analysis/src/airtable/person_details.py:69-90 | The scanning loop gives exactly the calendar dates of the leftmost, non-overlapping matches |
| `CellDates.ScanReadsAll` | packages/court-analysis/src/airtable/person_details.py:69-90 | A cell of dates among digit-free words is matched into exactly those dates, in order, invalid ones included |
| `CellDates.WrittenDatesAreRead` | packages/court-analysis/src/airtable/person_details.py:69-90 | Round trip: any list of calendar dates, each written in any of the forms, is read back as that list |
| `CellDates.CalendarIs` | packages/court-analysis/src/airtable/person_details.py:86-89 | A date is on the calendar if and only if its day is within the length of its month, with the Gregorian leap rule, and its year from 1 to 9999 |
| `CellDates.BeforeIff` | packages/court-analysis/src/airtable/person_details.py:128-133 | A date comes before another if and only if its digits, year, month and day, are the lesser number |
| `CellDates.Earliest` | packages/court-analysis/src/airtable/person_details.py:111-134 | None of no date, else a date of the cell that no other precedes: when the case was opened, when the name was listed |
| `CellDates.Latest` | packages/court-analysis/src/airtable/person_details.py:111-134 | None of no date, else a date of the cell that none follows: the sentence that stands |
| `CellDates.OrderInTheCellIsNothing` | packages/court-analysis/src/airtable/person_details.py:111-134 | Both are settled by which dates the cell holds, not by their order |
| `CellDates.DetailsOfWrittenDates` | packages/court-analysis/src/airtable/person_details.py:117-134 | For four cells of written dates: the birth date only when it stands alone, the first opening, the last sentence, the first listing |
| `FileDates.SpellingIff` | packages/court-analysis/src/airtable/files.py:209-214 | A text is taken for a spelled date if and only if it is a whole spelling of one of the two patterns with a known month |
| `FileDates.FitsIff` | packages/court-analysis/src/airtable/files.py:85-86 | The two spellings: a month and a day, either first, each followed by at most one sign and by spaces, and a year of four digits |
| `FileDates.MonthsInTurn` | packages/court-analysis/src/airtable/files.py:78-86 | The Russian month names, as a date declines them, and the English ones are the months one to twelve |
| `FileDates.SpelledDateIsRead` | packages/court-analysis/src/airtable/files.py:197-216 | What the import rewrites is then read as exactly the date it spelled, if the calendar has it |
| `FileDates.AsDateTwiceIsOnce` | packages/court-analysis/src/airtable/files.py:197-216 | Rewriting twice is rewriting once, for every text |
| `FileDates.ImportKeepsTheDates` | packages/court-analysis/src/airtable/files.py:197-216 | Against the reader of the base's own cells: the import never loses a date, and gives a different answer if and only if the text spells a calendar date in a way only the import knows |
| `Lanes.SourceLanes` | apps/court-monitor/src/cli/monitoring.py:176-194 | The lanes are, host by host in the order first named, the strides of the host's sources |
| `Lanes.LanesPartitionTheSources` | apps/court-monitor/src/cli/monitoring.py:183-194 | Every source given is in the lanes exactly as often as it was given |
| `Lanes.EveryPlaceInOneStride` | apps/court-monitor/src/cli/monitoring.py:191 | Place p of a host's list is the p/count-th source of lane p%count: given order is kept |
| `Lanes.StrideLength` | apps/court-monitor/src/cli/monitoring.py:189-193 | Lanes of one host differ in size by at most one and none is empty |
| `Lanes.LanesAreOfOneHost` | apps/court-monitor/src/cli/monitoring.py:188-193 | A lane holds sources of its own host only, and at least one |
| `Lanes.LanesOfAHost` | apps/court-monitor/src/cli/monitoring.py:186-196 | A host has exactly as many lanes as it has sources, up to its limit, and its lanes are marked shared exactly when they are several |
| `Lanes.HostLimitHolds` | apps/court-monitor/src/cli/monitoring.py:104-121 | The requests all lanes of a host may send it at once never exceed its limit |
| `LaneEnv.ChildReadsOneRequest` | apps/court-monitor/src/cli/monitoring.py:114-121 | The child of a shared lane parses, from whatever its parent's variable held, the parent's limits with one request for its own host |
| `LaneEnv.TrimDoesNotMatter` | packages/court-ingestion/src/ingestion/concurrency.py:96-121 | Spaces and commas at the ends of the variable change nothing the parser reads |
| `LaneEnv.EntryIs` | packages/court-ingestion/src/ingestion/concurrency.py:100-121 | An entry host=limit sets the limit of the lower-cased host if the limit is a number of at least one, else the text is refused |
| `LaneEnv.NoSign` | packages/court-ingestion/src/ingestion/concurrency.py:100-121 | An entry without the sign is passed over when blank, else refused |
| `LaneEnv.EntriesInTurn` | packages/court-ingestion/src/ingestion/concurrency.py:100-121 | Entries are taken in turn, a later one over an earlier; one refused entry refuses the text |
| `LaneLoad.LoadSequentially` | apps/court-monitor/src/cli/monitoring.py:460-489 | The sequential loop over the sources as given, one outcome for each time a source is given: the results in order and the code 1 over 3 over 0, or nothing printed and 1 when a source ends the process |
| `LaneLoad.LoadInLanes` | apps/court-monitor/src/cli/monitoring.py:220-248 | A child whose lane names a source that is not news loads nothing, prints nothing and exits with 1; any other loads each source of its lane once; the stable sort of the results by given position is printed, and the codes are merged |
| `LaneLoad.MergedCodeIsOfRuns` | apps/court-monitor/src/cli/monitoring.py:211-217 | The merged code is 1 over 3 over 0 of all the runs, however they were dealt |
| `LaneLoad.MergedCodes` | apps/court-monitor/src/cli/monitoring.py:211-217 | The merged code is 1 if any lane exits with 1, else 3 if any does, else the first that is not 0, else 0 |
| `LaneLoad.CodeIs` | apps/court-monitor/src/cli/monitoring.py:475-489 | A load exits with 0 if and only if every source completed, and with 1 if and only if one failed or was invalid; else with 3 |
| `Sorting.SortKeepsClasses` | apps/court-monitor/src/cli/monitoring.py:244 | The sort is stable: results of one position stay in the order they came |
| `LaneLoad.LoadInChild` | apps/court-monitor/src/cli/monitoring.py:425-442 | The child checks that its sources are news before any run, then loads each once |
| `LaneRepeats.ParallelPrintsSequentialIff` | apps/court-monitor/src/cli/monitoring.py:237-245 | The load in lanes prints what the sequential one prints if and only if no source ends the process, every source is news and comes to the same, no lane holds a source twice, no source is given again after another, and the lanes keep the repeats of a source in order |
| `LaneRepeats.OtherThanNewsFails` | apps/court-monitor/src/cli/monitoring.py:506-512 | With one source that is not news the load in lanes exits with 1, whatever the others come to |
| `LaneSchedules.DifferentSourcesAgree` | apps/court-monitor/src/cli/monitoring.py:220-248 | Of news sources all different, for any dealing, outcomes and times of the runs: the same exit code, and the same output if and only if no source ends the process |
| `LaneRaces.FailureIsLost` | apps/court-monitor/src/cli/monitoring.py:437-443 | A source twice in one lane: some outcomes exit with 0 in lanes where one process exits with 1, since the child drops the repeat |
| `LaneRaces.RunIsRefused` | packages/court-orchestrator/src/orchestrator/repository.py:156-203 | A source in two lanes: some times exit with 3 in lanes where one process exits with 0, since one run of a source is allowed at once |
| `LaneRaces.ParallelIsSequentialIff` | apps/court-monitor/src/cli/monitoring.py:220-248 | For any dealing in the order given, the lanes give what one process gives under all outcomes and times if and only if every source is news and none is given twice |
| `LaneCommand.CommandIsSequentialIff` | apps/court-monitor/src/cli/monitoring.py:452-458 | Of the command itself: under all outcomes and times it gives what one process gives if and only if it has one lane at most, or every source is news and none is given twice |
| `LaneCommand.RegistryIsRefused` | apps/court-monitor/src/cli/monitoring.py:425-430 | A concrete list, the registry and a news site as the default list holds them, each loaded well: one process exits with 0, the lanes with 1 |
| `LaneCommand.GivenTwice` | apps/court-monitor/src/cli/monitoring.py:442 | A concrete list, one source twice on a host of two requests, that exits with 3 in lanes and with 0 in one process |
| `LaneCommand.RepeatsComeOutSwapped` | apps/court-monitor/src/cli/monitoring.py:237-244 | A concrete list whose repeated results the lanes print in another order, even when no run refuses another |
| `LaneCommand.Load` | apps/court-monitor/src/cli/monitoring.py:452-489 | The command: one process for at most one lane, else the children merged; for one lane, or different news sources, the code of one process, and its output unless a source ends the process of several lanes |
| `LaneStop.FinishStop` | apps/court-monitor/src/cli/monitoring.py:158-163 | At the return the lane has ended of itself, or was killed and waited for; it is killed if and only if it does not end within what is left of the shared grace, and only after all of that |
| `LaneStop.StopLanes` | apps/court-monitor/src/cli/monitoring.py:166-173 | Every lane is signalled before any is awaited, and at most one grace is spent waiting over any number of lanes; at the return each lane not killed has ended, and each killed one was killed after the whole grace, while it still ran; so none that ends in time is killed |
| `Batches.ChunksHoldAll` | apps/court-monitor/src/cli_batches.py:74 | The chunks concatenate back to the ids |
| `Batches.ChunksAreFull` | apps/court-monitor/src/cli_batches.py:74 | Every chunk but the last holds 25 ids |
| `Batches.GivenInOrder` | apps/court-monitor/src/cli_batches.py:75-106 | When all chunks end well, the results are those of the chunks in the order they end |
| `Batches.TotalInAnyOrder` | apps/court-monitor/src/cli_batches.py:89-103 | A total does not depend on the order its parts come in |
| `Batches.RunHere` | apps/court-monitor/src/cli_batches.py:75-81 | In this process: every chunk's result in turn and progress summing to the ids; or, when a chunk raises, every chunk before the first that does was done and reported, and nothing after |
| `Batches.RunInWorkers` | apps/court-monitor/src/cli_batches.py:83-106 | For every completion order: all results if no chunk failed, else an error naming, sorted, exactly the ids of the failed chunks; progress always sums to the number of ids |
| `Batches.ErrorNamesWhatIsLeft` | apps/court-monitor/src/cli_batches.py:100-105 | The ids the error names and the ids of the chunks that ended well are together all the ids, each as often as given |
| `Batches.WorkerCount` | apps/court-monitor/src/cli_batches.py:54-58 | Refused below one; else at least one, never more than asked, than cores or than items, and no fewer than these allow |
| `Extraction.ExtractArticles` | apps/court-monitor/src/cli_batches.py:135-151 | The loop over one chunk is the sequential pass over it |
| `Extraction.MergeExtractionResults` | apps/court-monitor/src/cli_batches.py:154-163 | The merge is the fold of the batches in the order given |
| `Extraction.EveryArticleCounted` | apps/court-monitor/src/cli_batches.py:139-150 | processed + skipped + failed = articles, and there is one failure line for each that failed, of that article and its message |
| `Extraction.PassCounts` | apps/court-monitor/src/cli_batches.py:135-151 | A pass counts as processed, skipped and failed exactly the articles stored, skipped and refused |
| `Extraction.PassSums` | apps/court-monitor/src/cli_batches.py:135-151 | Its mentions and events are the sums over the articles stored |
| `Extraction.FailuresInOrder` | apps/court-monitor/src/cli_batches.py:135-151 | The failures stand in the order of their articles |
| `Extraction.OneProcessIsOnePass` | apps/court-monitor/src/cli_batches.py:74-81 | In one process the merged result is the very result of one pass, order of failures included |
| `Extraction.AnyOrderGivesTheSameTotals` | apps/court-monitor/src/cli_batches.py:83-106 | In worker processes, for every completion order, counts and failures are those of one sequential pass |
| `Cycle.WaitForLoad` | apps/court-monitor/src/dagster_location/cycle.py:129-154 | Starts only after a look that found no load active, every earlier look being within the limit, and only when a load ended recently; fails otherwise; at most 240 sleeps |
| `Cycle.NewPartIs` | apps/court-monitor/src/dagster_location/cycle.py:66-72 | For any two texts the piece is an end of the current one: what follows the previous text when the current begins with it, else what follows the first place of its last 200 characters, else the whole current text |
| `Cycle.GrowingOutputIsLoggedOnce` | apps/court-monitor/src/dagster_location/cycle.py:66-72 | While output only grows, the pieces logged concatenate to the last text |
| `Cycle.SlidTailGivesAllNewText` | apps/court-monitor/src/dagster_location/cycle.py:70-72 | A slid tail that still holds the anchor ends its piece with all the new text |
| `Cycle.SlidTailLosesNothingIff` | apps/court-monitor/src/dagster_location/cycle.py:66-72 | For every slide: the piece ends with all the new text if and only if the tail does not start with the whole previous one, and either still holds the anchor or shows it nowhere |
| `Cycle.SlidTailGivesOnlyNewTextIff` | apps/court-monitor/src/dagster_location/cycle.py:70-72 | It gives only the new text if and only if the anchor stands nowhere earlier in the tail |
| `Cycle.RepetitiveSlideLosesText` | apps/court-monitor/src/dagster_location/cycle.py:68-69 | A slid tail that still starts with the whole previous text loses exactly as many new characters as slid off |
| `Cycle.RepeatedLineIsNotLogged` | apps/court-monitor/src/dagster_location/cycle.py:68-69 | A tail full of one line that is written once more logs nothing of it |
| `Cycle.RepetitiveSlideExample` | apps/court-monitor/src/dagster_location/cycle.py:68-69 | A concrete full tail of 20,000 characters whose next line is not logged |
| `Cycle.RunStep` | apps/court-monitor/src/dagster_location/cycle.py:84-114 | From the first beat past the deadline every answer is "stop", and the step ends with 0 if and only if the process did and no beat was late, a late good end being 124; the log is, look by look, what is new of the output and then of the errors, and the exit code |
| `Cycle.LookLinesAre` | apps/court-monitor/src/dagster_location/cycle.py:92-96 | A look logs what is new of the output, then what is new of the errors, each on a line of its own stream, and no line for a piece of spaces |
| `Cycle.LogGrows` | apps/court-monitor/src/dagster_location/cycle.py:92-112 | A later look only adds to the log |
| `Cycle.StreamsStayApart` | apps/court-monitor/src/dagster_location/cycle.py:90-112 | The log holds of each of the two streams exactly what its texts alone would log, trailing spaces cut and blank pieces skipped |
| `Cycle.OnlySpacesAreNotLogged` | apps/court-monitor/src/dagster_location/cycle.py:92-96 | While a stream only grows, the log has all of it but spaces, each character once and in order |
| `Candidates.FirstMentions` | apps/court-monitor/src/web/candidate_rows.py:103-110 | For each person with a stored mention, one that no other stored mention of theirs ranks below |
| `Candidates.FirstIsEarliest` | apps/court-monitor/src/web/candidate_rows.py:101-113 | The mention chosen is of the earliest dated article, the least mention of those; undated ones count only when there is no other |
| `Candidates.FirstIsUnique` | apps/court-monitor/src/web/candidate_rows.py:103-110 | That mention is one only, in whatever order the mentions are read |
| `Candidates.CriminalOrAdministrative` | apps/court-monitor/src/web/candidate_rows.py:134-174 | The two tests never both hold, and one of them holds if and only if there is a charge or an event to tell by |
| `Candidates.SelectRows` | apps/court-monitor/src/web/candidate_rows.py:247-292 | The rows are exactly the candidates that pass, in the table order |
| `Candidates.KeptAre` | apps/court-monitor/src/web/candidate_rows.py:249-280 | A row is kept if and only if its candidate is listed, carries its own news and passes every filter |
| `Candidates.PassesIff` | apps/court-monitor/src/web/candidate_rows.py:262-278 | When a row passes, by its charges, its event and the two days, for every setting of the filter |
| `Candidates.InOrderIff` | apps/court-monitor/src/web/candidate_rows.py:282-292 | Two rows are in order if and only if, at the first of category, undated, latest first and person that differs, the one is less |
| `Candidates.PrioritiesAre` | apps/court-monitor/src/web/candidate_rows.py:50-60 | A case, a charge, an arrest and a sentence come first, then a detention and a search, then all else |
| `Candidates.RowsAreSettled` | apps/court-monitor/src/web/candidate_rows.py:282-292 | Two listings of the same candidates in any orders give one table: no two rows tie |
| `Candidates.CriminalOnlySettlesAdministrative` | apps/court-monitor/src/web/candidate_rows.py:252-257 | For any candidates: asked for criminal cases only, including administrative ones changes no row |
| `Candidates.LaterPeriodShowsFewer` | apps/court-monitor/src/web/candidate_rows.py:262-278 | For any candidates: a later start of the period only takes rows away |
| `WorkspaceClosure.TakeRequirements` | scripts/check_package_isolation.py:104-107 | One member's requirements: every member among them is found, and only what is new is left to be taken |
| `WorkspaceClosure.Closure` | scripts/check_package_isolation.py:98-108 | Ends on every graph, cycles included, with exactly the members the given one reaches |
| `EventDateMigration.Tables.Upgrade` | migrations/versions/q1w2e3r4t5y6_event_date_is_the_event_s_own.py:79-103 | Substituted dates are saved and cleared, rows already saved are left, and the check at the end never fails |
| `EventDateMigration.NoneLeft` | migrations/versions/q1w2e3r4t5y6_event_date_is_the_event_s_own.py:99-102 | After the clearing no substituted date is left, on any tables with NULLs |
| `EventDateMigration.OnlySubstitutionsCleared` | migrations/versions/q1w2e3r4t5y6_event_date_is_the_event_s_own.py:36-39 | An event changes, and is saved, if and only if its date is its article's known date |
| `EventDateMigration.SubstitutedIs` | migrations/versions/q1w2e3r4t5y6_event_date_is_the_event_s_own.py:36-39 | An event is substituted if and only if its date is known and is the known date of the article of its run |
| `EventDateMigration.BackupGrows` | migrations/versions/q1w2e3r4t5y6_event_date_is_the_event_s_own.py:79-98 | The backup keeps every row it held, and takes of exactly the events cleared, if it did not hold them, the date each had |
| `EventDateMigration.DowngradeUndoesUpgrade` | migrations/versions/q1w2e3r4t5y6_event_date_is_the_event_s_own.py:112-124 | Down after up restores every event date |
| `EventDateMigration.ClearingTwiceIsOnce` | migrations/versions/q1w2e3r4t5y6_event_date_is_the_event_s_own.py:86-98 | A second clearing changes neither events nor backup |
| `EventDateMigration.DowngradeRestoresOnlyTheCleared` | migrations/versions/q1w2e3r4t5y6_event_date_is_the_event_s_own.py:113-123 | Whatever happened between, the downgrade changes only undated events this migration cleared, each to the date cleared |
| `AnswerKeyMigration.Answers.Downgrade` | migrations/versions/o6p7q8r9s0t1_model_in_answer_keys.py:41-49 | Each named table is left with its newest rows, every other table alone |
| `AnswerKeyMigration.DowngradeKeepsTheNewest` | migrations/versions/o6p7q8r9s0t1_model_in_answer_keys.py:43-49 | Exactly one row is left for every short key that had any, the greatest by (created_at, model), so the narrow key always holds |
| `AnswerKeyMigration.LaterIsNewer` | migrations/versions/o6p7q8r9s0t1_model_in_answer_keys.py:43-49 | The later answer is newer whatever the models |
| `AnswerKeyMigration.GreaterModelIsNewer` | migrations/versions/o6p7q8r9s0t1_model_in_answer_keys.py:43-49 | Of two of one moment the first difference of the models decides |
| `AnswerKeyMigration.DowngradeUndoesUpgrade` | migrations/versions/o6p7q8r9s0t1_model_in_answer_keys.py:35-49 | Down after up is the table as it was |

## Left out

- Labels, links, confidence, sources and dates of a node, and the title of an edge: display only; they decide neither nodes, edges nor counts.
- The text normalisation of mentions (whitespace, case folding, the country's name cut from a Code): `EventNeighbours` takes mentions already normalised.
- `_events_of` for `expand_person`: the same function as for the first payload, with the same limit.
- `sync_sources` and `sync_officials`: they hand their records to repositories that are not part of this model.
- `person_name`, the gender, region, city and checkbox columns of `details`, and `_as_boolean`: lookups of one cell.
- Ids made by sha256 for records of a file: an injective hash would be assumed and nothing proved.
- The share 0.25 of the guard is the integer test `4 * new >= previous`; float rounding is not modelled.
- Unicode digits: `\d` is the ASCII digit. `_as_date` is given stripped text, as its caller strips it.
- Signals, pipes and process start of a lane: `LaneStop` takes when a lane would end and how long its reaping takes as given, and `LaneLoad` does not cover a lane whose output cannot be parsed or whose process dies of a signal.
- `start_run` aborts runs whose heartbeat is stale before it refuses a new one: a run of the load is taken to keep its heartbeat.
- The step's name before each line `RunStep` logs.
- `LaneEnv.ChildReadsOneRequest`: `int` and `str.lower` are taken as given functions, with `int("1")` equal to 1.
- `match_persons`, `check_chain`, `unasked_total`, `failures_total`: a sum or a lookup each.
- The text of the summaries and of the errors, and which exception a batch error carries as its cause.
- `_candidate_news` for a person with events: the query that picks the latest event is not part of this model; `news_day` is any function of the moment.
- `surname_first` and the dictionaries of names and genders.
- Reading a member's requirements from its project file: `WorkspaceClosure` takes the graph as given.
- The DDL of the two migrations, and a NULL `created_at`: the column is not nullable.
- Everything around: HTTP, Airtable paging, the page itself, Dagster and FastAPI wiring, settings, logging.
