/** The viewer's session: the module-level state of the browser client and the handlers that
    change it, each run to completion as on the browser's single thread. DOM updates are kept
    only as the logical button state and the file badges; each consent POST is recorded as an
    entry appended to `consents`. */
module Viewer {
  import opened Wrappers
  import opened Catalog
  import opened Text
  import opened ViewerRules

  /** A pdf.js loading task: the URL it was started for and the number of tasks started before
      it. */
  datatype LoadingTask = LoadingTask(url: string, serial: nat)

  /** `pdfCache`, with the number of loading tasks started so far. */
  datatype PdfCache = PdfCache(tasks: map<string, LoadingTask>, started: nat)

  /** A consent record POSTed to `/api/consent`. */
  datatype Consent =
    | GroupConsent(groupIndex: int, groupName: string, timestamp: string, files: set<string>)
    | FinalConsent(timestamp: string, groups: set<int>, files: set<string>)

  /** Every cached task was started for the URL it is filed under, before the current count. */
  ghost predicate WellFormedCache(c: PdfCache)
  {
    forall u :: u in c.tasks ==> c.tasks[u].url == u && c.tasks[u].serial < c.started
  }

  /** Entries are only ever added to the cache, never replaced or removed. */
  ghost predicate CacheOnlyGrows(before: PdfCache, after: PdfCache)
  {
    before.tasks.Keys <= after.tasks.Keys && forall u :: u in before.tasks ==> after.tasks[u] == before.tasks[u]
  }

  /** `if (!pdfCache[url]) pdfCache[url] = pdfjsLib.getDocument(url).promise`. */
  function CacheUrl(c: PdfCache, url: string): (r: PdfCache)
    ensures r.tasks.Keys == c.tasks.Keys + {url}
  {
    if url in c.tasks then c else PdfCache(c.tasks[url := LoadingTask(url, c.started)], c.started + 1)
  }

  /** The cache after `CacheUrl` for each file's URL in turn. */
  function CacheAll(c: PdfCache, files: seq<FileDesc>): (r: PdfCache)
    ensures c.tasks.Keys <= r.tasks.Keys && c.started <= r.started
  {
    if files == [] then c else CacheUrl(CacheAll(c, files[..|files| - 1]), files[|files| - 1].url)
  }

  /** Caching one more file is caching its URL after the others. */
  lemma CacheAllAppend(c: PdfCache, files: seq<FileDesc>, f: FileDesc)
    ensures CacheAll(c, files + [f]) == CacheUrl(CacheAll(c, files), f.url)
  {
    assert (files + [f])[..|files|] == files;
  }

  /** Caching one URL adds at most that URL, never replaces an entry and keeps the cache well
      formed. */
  lemma CacheUrlGrows(c: PdfCache, url: string)
    ensures CacheOnlyGrows(c, CacheUrl(c, url))
    ensures CacheUrl(c, url).started == c.started + |CacheUrl(c, url).tasks| - |c.tasks|
    ensures WellFormedCache(c) ==> WellFormedCache(CacheUrl(c, url))
  {
  }

  /** Caching a list of files adds exactly their URLs. */
  lemma {:induction false} CacheAllKeys(c: PdfCache, files: seq<FileDesc>)
    ensures CacheAll(c, files).tasks.Keys == c.tasks.Keys + Urls(files)
  {
    if files != [] {
      IdsAndUrlsOfLast(files);
      CacheAllKeys(c, files[..|files| - 1]);
      CacheUrlGrows(CacheAll(c, files[..|files| - 1]), files[|files| - 1].url);
    }
  }

  /** Caching a list of files starts exactly one task per URL it adds. */
  lemma {:induction false} CacheAllStarted(c: PdfCache, files: seq<FileDesc>)
    ensures CacheAll(c, files).started == c.started + |CacheAll(c, files).tasks| - |c.tasks|
  {
    if files != [] {
      CacheAllStarted(c, files[..|files| - 1]);
      CacheUrlGrows(CacheAll(c, files[..|files| - 1]), files[|files| - 1].url);
    }
  }

  /** Caching a list of files never replaces an entry. */
  lemma {:induction false} CacheAllGrows(c: PdfCache, files: seq<FileDesc>)
    ensures CacheOnlyGrows(c, CacheAll(c, files))
  {
    if files != [] {
      CacheAllGrows(c, files[..|files| - 1]);
      CacheUrlGrows(CacheAll(c, files[..|files| - 1]), files[|files| - 1].url);
    }
  }

  /** Caching a list of files keeps the cache well formed. */
  lemma {:induction false} CacheAllWellFormed(c: PdfCache, files: seq<FileDesc>)
    requires WellFormedCache(c)
    ensures WellFormedCache(CacheAll(c, files))
  {
    if files != [] {
      CacheAllWellFormed(c, files[..|files| - 1]);
      CacheUrlGrows(CacheAll(c, files[..|files| - 1]), files[|files| - 1].url);
    }
  }

  /** When every URL is already cached, caching them again changes nothing. */
  lemma CacheAllCached(c: PdfCache, files: seq<FileDesc>)
    requires Urls(files) <= c.tasks.Keys
    ensures CacheAll(c, files) == c
  {
    CacheAllKeys(c, files);
    CacheAllStarted(c, files);
    CacheAllGrows(c, files);
    var r := CacheAll(c, files);
    assert r.tasks.Keys == c.tasks.Keys;
    assert r.tasks == c.tasks;
  }

  /** Caching a list of files twice starts no task the first time did not. */
  lemma CacheAllIdempotent(c: PdfCache, files: seq<FileDesc>)
    ensures CacheAll(CacheAll(c, files), files) == CacheAll(c, files)
  {
    CacheAllKeys(c, files);
    CacheAllCached(CacheAll(c, files), files);
  }

  /** The badges `createGroupStructure` lays out for a group's files, in order. */
  function Badges(files: seq<FileDesc>, viewedFiles: set<string>): (status: map<string, FileStatus>)
    ensures forall id :: id in status ==> status[id] == InitialStatus(id, viewedFiles)
  {
    if files == [] then map[]
    else
      var last := files[|files| - 1];
      Badges(files[..|files| - 1], viewedFiles)[last.id := InitialStatus(last.id, viewedFiles)]
  }

  /** There is one badge per file id of the group. */
  lemma {:induction false} BadgesShape(files: seq<FileDesc>, viewedFiles: set<string>)
    ensures Badges(files, viewedFiles).Keys == Ids(files)
  {
    if files != [] {
      IdsAndUrlsOfLast(files);
      BadgesShape(files[..|files| - 1], viewedFiles);
    }
  }

  /** No badge contradicts the viewed set: "Viewed" only for viewed files, "Not viewed" only for
      the others ("Ready" says nothing either way). */
  ghost predicate StatusesAgree(status: map<string, FileStatus>, viewedFiles: set<string>)
  {
    forall id :: id in status ==>
      (status[id] == Viewed ==> id in viewedFiles) && (status[id] == NotViewed ==> id !in viewedFiles)
  }

  /** Freshly laid-out badges agree with the viewed set they were computed from. */
  lemma BadgesAgreeWithViewed(files: seq<FileDesc>, viewedFiles: set<string>)
    ensures StatusesAgree(Badges(files, viewedFiles), viewedFiles)
  {
    BadgesShape(files, viewedFiles);
  }

  /** Marking a file viewed, and its badge if shown, keeps the badges in agreement. */
  lemma MarkingViewedAgrees(status: map<string, FileStatus>, viewedFiles: set<string>, id: string)
    requires StatusesAgree(status, viewedFiles)
    ensures StatusesAgree(if id in status then status[id := Viewed] else status, viewedFiles + {id})
  {
  }

  /** The badges once the given files are marked viewed: a shown badge of such a file reads
      "Viewed", every other badge is kept. */
  function MarkBadges(status: map<string, FileStatus>, ids: set<string>): map<string, FileStatus>
  {
    map id | id in status :: if id in ids then Viewed else status[id]
  }

  /** Marking one more file is turning its badge, if shown, to "Viewed" after the others. */
  lemma MarkBadgesAddOne(status: map<string, FileStatus>, ids: set<string>, id: string)
    ensures MarkBadges(status, ids + {id}) ==
      if id in status then MarkBadges(status, ids)[id := Viewed] else MarkBadges(status, ids)
  {
  }

  /** One more observer entry's effect on the cache, in the closed form the callback keeps. */
  lemma CacheStep(entries: seq<PageEntry>, i: nat, seen: set<string>, loaded: set<string>,
                  groups: seq<Group>, current: int, c0: PdfCache, c1: PdfCache, c2: PdfCache)
    requires i < |entries| && current < |groups|
    requires loaded == seen + IntersectingKeys(entries[..i])
    requires c1 == CacheAll(c0, RenderStarts(entries[..i], seen, groups, current))
    requires c2 == if Starts(groups, current, entries[i], loaded)
                   then CacheUrl(c1, RenderTarget(groups, current, entries[i].fileId).value.url) else c1
    ensures c2 == CacheAll(c0, RenderStarts(entries[..i + 1], seen, groups, current))
  {
    ObserverPrefixStep(entries, i, seen, loaded, groups, current);
    var starts := RenderStarts(entries[..i], seen, groups, current);
    if Starts(groups, current, entries[i], loaded) {
      var target := RenderTarget(groups, current, entries[i].fileId).value;
      assert RenderStarts(entries[..i + 1], seen, groups, current) == starts + [target];
      CacheAllAppend(c0, starts, target);
    } else {
      assert RenderStarts(entries[..i + 1], seen, groups, current) == starts + [];
      assert starts + [] == starts;
    }
  }

  /** One more observer entry's effect on the badges, in the closed form the callback keeps. */
  lemma BadgeStep(entries: seq<PageEntry>, i: nat, seen: set<string>, loaded: set<string>,
                  groups: seq<Group>, current: int,
                  s0: map<string, FileStatus>, s1: map<string, FileStatus>, s2: map<string, FileStatus>)
    requires i < |entries| && current < |groups|
    requires loaded == seen + IntersectingKeys(entries[..i])
    requires s1 == MarkBadges(s0, DrawnIds(entries[..i], seen, groups, current))
    requires s2 == if Starts(groups, current, entries[i], loaded) && entries[i].renders && entries[i].fileId in s1
                   then s1[entries[i].fileId := Viewed] else s1
    ensures s2 == MarkBadges(s0, DrawnIds(entries[..i + 1], seen, groups, current))
  {
    ObserverPrefixStep(entries, i, seen, loaded, groups, current);
    var drawn, id := DrawnIds(entries[..i], seen, groups, current), entries[i].fileId;
    if Starts(groups, current, entries[i], loaded) && entries[i].renders {
      assert DrawnIds(entries[..i + 1], seen, groups, current) == drawn + {id};
      assert id in s1 <==> id in s0;
      MarkBadgesAddOne(s0, drawn, id);
    } else {
      assert DrawnIds(entries[..i + 1], seen, groups, current) == drawn + {};
      assert drawn + {} == drawn;
    }
  }

  /** What the observer callback has done so far: the keys sent to `renderPage`, the keys
      marked loaded, the document cache, the viewed files and groups, the badges, and whether
      any page was drawn. */
  datatype Progress = Progress(sent: seq<string>, loaded: set<string>, cache: PdfCache,
                               files: set<string>, marked: set<int>,
                               status: map<string, FileStatus>, drew: bool)

  /** The effect of one entry, as `ObserveEntry` performs it on the session. */
  function ObserveStep(groups: seq<Group>, current: int, p: Progress, e: PageEntry): Progress
    requires current < |groups|
  {
    var starts := Starts(groups, current, e, p.loaded);
    var drawn := starts && e.renders;
    var files := p.files + (if drawn then {e.fileId} else {});
    Progress(
      p.sent + (if e.isIntersecting && EntryKey(e) !in p.loaded then [EntryKey(e)] else []),
      p.loaded + (if e.isIntersecting then {EntryKey(e)} else {}),
      if starts then CacheUrl(p.cache, RenderTarget(groups, current, e.fileId).value.url) else p.cache,
      files,
      if drawn && AllViewed(groups[current].files, files) then p.marked + {current} else p.marked,
      if drawn && e.fileId in p.status then p.status[e.fileId := Viewed] else p.status,
      p.drew || drawn)
  }

  /** The fields `ObserveEntry` states, gathered: they are exactly one `ObserveStep`. */
  lemma ObserveStepFields(groups: seq<Group>, current: int, p: Progress, e: PageEntry, r: Progress)
    requires current < |groups|
    requires r.sent == p.sent + (if e.isIntersecting && EntryKey(e) !in p.loaded then [EntryKey(e)] else [])
    requires r.loaded == p.loaded + (if e.isIntersecting then {EntryKey(e)} else {})
    requires r.cache == if Starts(groups, current, e, p.loaded)
      then CacheUrl(p.cache, RenderTarget(groups, current, e.fileId).value.url) else p.cache
    requires var drawn := Starts(groups, current, e, p.loaded) && e.renders;
      && r.files == p.files + (if drawn then {e.fileId} else {})
      && r.marked == (if drawn && AllViewed(groups[current].files, r.files) then p.marked + {current} else p.marked)
      && r.status == (if drawn && e.fileId in p.status then p.status[e.fileId := Viewed] else p.status)
      && r.drew == (p.drew || drawn)
    ensures r == ObserveStep(groups, current, p, e)
  {
  }

  /** The effect of the entries in turn. */
  function ObserveAll(groups: seq<Group>, current: int, p: Progress, entries: seq<PageEntry>): Progress
    requires current < |groups|
  {
    if entries == [] then p
    else ObserveStep(groups, current, ObserveAll(groups, current, p, entries[..|entries| - 1]), entries[|entries| - 1])
  }

  /** The entries taken in turn, stated outright: the fresh intersecting keys sent once each,
      every intersecting key loaded, the documents of the files found cached in order, the
      files drawn marked viewed with their badges, and the current group marked once a drawing
      completes it. */
  function ObserveClosed(groups: seq<Group>, current: int, p: Progress, entries: seq<PageEntry>): Progress
    requires current < |groups|
  {
    var drawn := DrawnIds(entries, p.loaded, groups, current);
    Progress(
      p.sent + FreshKeys(entries, p.loaded),
      p.loaded + IntersectingKeys(entries),
      CacheAll(p.cache, RenderStarts(entries, p.loaded, groups, current)),
      p.files + drawn,
      if drawn != {} && AllViewed(groups[current].files, p.files + drawn) then p.marked + {current} else p.marked,
      MarkBadges(p.status, drawn),
      p.drew || drawn != {})
  }

  /** Regrouping `+`, stated apart so that the step lemmas below need not re-derive it. */
  lemma AppendAssociative(a: seq<string>, b: seq<string>, c: seq<string>)
    ensures (a + b) + c == a + (b + c)
  {
  }

  lemma UnionAssociative(a: set<string>, b: set<string>, c: set<string>)
    ensures (a + b) + c == a + (b + c)
  {
  }

  /** One more entry keeps the outright statement of the keys sent and loaded and of whether a
      page was drawn. */
  lemma StepKeys(groups: seq<Group>, current: int, p: Progress, entries: seq<PageEntry>, q: Progress)
    requires current < |groups| && entries != []
    requires var prefix := entries[..|entries| - 1];
      && q.sent == p.sent + FreshKeys(prefix, p.loaded)
      && q.loaded == p.loaded + IntersectingKeys(prefix)
      && q.drew == (p.drew || DrawnIds(prefix, p.loaded, groups, current) != {})
    ensures var r := ObserveStep(groups, current, q, entries[|entries| - 1]);
      && r.sent == p.sent + FreshKeys(entries, p.loaded)
      && r.loaded == p.loaded + IntersectingKeys(entries)
      && r.drew == (p.drew || DrawnIds(entries, p.loaded, groups, current) != {})
  {
    var i := |entries| - 1;
    assert entries[..i + 1] == entries;
    ObserverPrefixStep(entries, i, p.loaded, q.loaded, groups, current);
    var before, e := FreshKeys(entries[..i], p.loaded), entries[i];
    AppendAssociative(p.sent, before, if e.isIntersecting && EntryKey(e) !in q.loaded then [EntryKey(e)] else []);
    UnionAssociative(p.loaded, IntersectingKeys(entries[..i]), if e.isIntersecting then {EntryKey(e)} else {});
  }

  /** One more entry keeps the outright statement of the cache. */
  lemma StepCache(groups: seq<Group>, current: int, p: Progress, entries: seq<PageEntry>, q: Progress)
    requires current < |groups| && entries != []
    requires q == ObserveClosed(groups, current, p, entries[..|entries| - 1])
    ensures ObserveStep(groups, current, q, entries[|entries| - 1]).cache == ObserveClosed(groups, current, p, entries).cache
  {
    var i := |entries| - 1;
    assert entries[..i + 1] == entries;
    var r := ObserveStep(groups, current, q, entries[i]);
    CacheStep(entries, i, p.loaded, q.loaded, groups, current, p.cache, q.cache, r.cache);
  }

  /** One more entry keeps the outright statement of the viewed files and groups. */
  lemma StepViewed(groups: seq<Group>, current: int, p: Progress, entries: seq<PageEntry>, q: Progress)
    requires current < |groups| && entries != []
    requires q == ObserveClosed(groups, current, p, entries[..|entries| - 1])
    ensures var r, c := ObserveStep(groups, current, q, entries[|entries| - 1]), ObserveClosed(groups, current, p, entries);
      r.files == c.files && r.marked == c.marked
  {
    var i := |entries| - 1;
    assert entries[..i + 1] == entries;
    var r := ObserveStep(groups, current, q, entries[i]);
    ViewedStep(entries, i, p.loaded, q.loaded, groups, current, p.files, p.marked, q.files, q.marked, r.files, r.marked);
  }

  /** One more entry keeps the outright statement of the badges. */
  lemma StepBadges(groups: seq<Group>, current: int, p: Progress, entries: seq<PageEntry>, q: Progress)
    requires current < |groups| && entries != []
    requires q == ObserveClosed(groups, current, p, entries[..|entries| - 1])
    ensures ObserveStep(groups, current, q, entries[|entries| - 1]).status == ObserveClosed(groups, current, p, entries).status
  {
    var i := |entries| - 1;
    assert entries[..i + 1] == entries;
    var r := ObserveStep(groups, current, q, entries[i]);
    BadgeStep(entries, i, p.loaded, q.loaded, groups, current, p.status, q.status, r.status);
  }

  /** Taking the entries in turn amounts to the outright statement. */
  lemma {:induction false} ObserveAllClosed(groups: seq<Group>, current: int, p: Progress, entries: seq<PageEntry>)
    requires current < |groups|
    ensures ObserveAll(groups, current, p, entries) == ObserveClosed(groups, current, p, entries)
  {
    if entries == [] {
      assert MarkBadges(p.status, {}) == p.status;
    } else {
      ObserveAllClosed(groups, current, p, entries[..|entries| - 1]);
      var q := ObserveAll(groups, current, p, entries[..|entries| - 1]);
      StepKeys(groups, current, p, entries, q);
      StepCache(groups, current, p, entries, q);
      StepViewed(groups, current, p, entries, q);
      StepBadges(groups, current, p, entries, q);
    }
  }

  class PdfViewer {
    var pdfGroups: seq<Group>
    var currentGroupIndex: int
    var currentFileIndex: int
    var viewedFiles: set<string>
    var viewedGroups: set<int>
    var loadedPages: set<string>
    var pdfCache: PdfCache
    /** The badges of the files laid out on the page, by file id. */
    var fileStatus: map<string, FileStatus>
    var prevDisabled: bool
    var nextButton: NextButton
    var consents: seq<Consent>

    /** The badges on the page are those of the current group's files, and agree with
        `viewedFiles`. */
    ghost predicate BadgesAgree()
      reads this`pdfGroups, this`currentGroupIndex, this`fileStatus, this`viewedFiles
    {
      && (if 0 <= currentGroupIndex < |pdfGroups|
          then fileStatus.Keys == Ids(pdfGroups[currentGroupIndex].files)
          else fileStatus == map[])
      && StatusesAgree(fileStatus, viewedFiles)
    }

    /** The viewing state: the group index is within the catalog (or -1 before any group is
        shown), a group is marked viewed only when all its files are, and the badges agree. */
    ghost predicate ViewingConsistent()
      reads this`pdfGroups, this`currentGroupIndex, this`viewedFiles, this`viewedGroups, this`fileStatus
    {
      && -1 <= currentGroupIndex < |pdfGroups|
      && MarkedGroupsViewed(pdfGroups, viewedGroups, viewedFiles)
      && BadgesAgree()
    }

    /** The session invariant: the viewing state is consistent, only groups with files are
        marked viewed, and the cache is well formed. */
    ghost predicate Valid()
      reads this`pdfGroups, this`currentGroupIndex, this`viewedFiles, this`viewedGroups,
            this`fileStatus, this`pdfCache
    {
      ViewingConsistent() && MarkedGroupsHaveFiles(pdfGroups, viewedGroups) && WellFormedCache(pdfCache)
    }

    /** The buttons as `updateGroupNavigation` sets them. */
    ghost predicate NavigationShown()
      reads this`pdfGroups, this`currentGroupIndex, this`viewedGroups, this`prevDisabled, this`nextButton
    {
      prevDisabled == (currentGroupIndex <= 0)
      && nextButton == NextButtonState(|pdfGroups|, currentGroupIndex, viewedGroups)
    }

    /** The state at page load, before the catalog arrives. */
    constructor ()
      ensures Valid()
      ensures pdfGroups == [] && currentGroupIndex == -1 && currentFileIndex == -1
      ensures viewedFiles == {} && viewedGroups == {} && loadedPages == {}
      ensures pdfCache == PdfCache(map[], 0) && fileStatus == map[] && consents == []
    {
      pdfGroups := [];
      currentGroupIndex := -1;
      currentFileIndex := -1;
      viewedFiles := {};
      viewedGroups := {};
      loadedPages := {};
      pdfCache := PdfCache(map[], 0);
      fileStatus := map[];
      prevDisabled := false;
      nextButton := NextButton(ConsentAndNext, false);
      consents := [];
    }

    /** `isGroupFullyViewed`: false before a group is shown, else whether every file of the
        current group is in `viewedFiles` (so true for a group without files). */
    function IsGroupFullyViewed(): (r: bool)
      reads this`pdfGroups, this`currentGroupIndex, this`viewedFiles
      requires currentGroupIndex < |pdfGroups|
      ensures currentGroupIndex < 0 ==> !r
      ensures currentGroupIndex >= 0 ==>
        (r <==> forall f :: f in pdfGroups[currentGroupIndex].files ==> f.id in viewedFiles)
      ensures currentGroupIndex >= 0 && pdfGroups[currentGroupIndex].files == [] ==> r
    {
      currentGroupIndex >= 0 && AllViewed(pdfGroups[currentGroupIndex].files, viewedFiles)
    }

    /** The cache check-and-fill `loadPdfFile` and `renderPage` perform for one URL. */
    method EnsureCached(url: string)
      modifies this`pdfCache
      ensures pdfCache == CacheUrl(old(pdfCache), url)
    {
      if url !in pdfCache.tasks {
        pdfCache := PdfCache(pdfCache.tasks[url := LoadingTask(url, pdfCache.started)], pdfCache.started + 1);
      }
    }

    /** `preloadGroupPdfs`: starts a loading task for each URL of the group not yet cached. */
    method PreloadGroupPdfs(group: Group)
      modifies this`pdfCache
      ensures pdfCache == CacheAll(old(pdfCache), group.files)
    {
      var i := 0;
      while i < |group.files|
        invariant 0 <= i <= |group.files|
        invariant pdfCache == CacheAll(old(pdfCache), group.files[..i])
      {
        assert group.files[..i + 1][..i] == group.files[..i];
        EnsureCached(group.files[i].url);
        i := i + 1;
      }
      assert group.files[..i] == group.files;
    }

    /** `resetPdfViewer`: clears the page (and so every badge) and `loadedPages`; the viewed sets
        and the cache are kept. */
    method ResetPdfViewer()
      modifies this`fileStatus, this`loadedPages
      ensures fileStatus == map[] && loadedPages == {}
    {
      fileStatus := map[];
      loadedPages := {};
    }

    /** `createGroupStructure` on the cleared page, with the synchronous part of each
        `loadPdfFile`: a badge per file and a loading task per URL not yet cached. */
    method CreateGroupStructure(group: Group)
      requires fileStatus == map[]
      modifies this`fileStatus, this`pdfCache
      ensures pdfCache == CacheAll(old(pdfCache), group.files)
      ensures fileStatus == Badges(group.files, viewedFiles)
    {
      var i := 0;
      while i < |group.files|
        invariant 0 <= i <= |group.files|
        invariant pdfCache == CacheAll(old(pdfCache), group.files[..i])
        invariant fileStatus == Badges(group.files[..i], viewedFiles)
      {
        var file := group.files[i];
        assert group.files[..i + 1][..i] == group.files[..i];
        fileStatus := fileStatus[file.id := InitialStatus(file.id, viewedFiles)];
        EnsureCached(file.url);
        i := i + 1;
      }
      assert group.files[..i] == group.files;
    }

    /** `updateGroupNavigation`. */
    method UpdateGroupNavigation()
      modifies this`prevDisabled, this`nextButton
      ensures NavigationShown()
    {
      prevDisabled := currentGroupIndex <= 0;
      nextButton := NextButtonState(|pdfGroups|, currentGroupIndex, viewedGroups);
    }

    /** `loadGroup`: nothing happens for an index outside the catalog; otherwise the page is reset
        and the group laid out, its PDFs are cached, and the buttons are updated. */
    method LoadGroup(groupIndex: int)
      requires Valid()
      modifies this`fileStatus, this`loadedPages, this`currentGroupIndex,
               this`currentFileIndex, this`pdfCache, this`prevDisabled, this`nextButton
      ensures Valid()
      ensures !(0 <= groupIndex < |pdfGroups|) ==> unchanged(this`fileStatus, this`loadedPages,
          this`currentGroupIndex, this`currentFileIndex, this`pdfCache,
          this`prevDisabled, this`nextButton)
      ensures 0 <= groupIndex < |pdfGroups| ==>
        && currentGroupIndex == groupIndex && currentFileIndex == 0
        && loadedPages == {}
        && fileStatus == Badges(pdfGroups[groupIndex].files, viewedFiles)
        && pdfCache == CacheAll(old(pdfCache), pdfGroups[groupIndex].files)
        && NavigationShown()
    {
      if groupIndex < 0 || groupIndex >= |pdfGroups| {
        return;
      }
      ResetPdfViewer();
      currentGroupIndex := groupIndex;
      currentFileIndex := 0;
      var group := pdfGroups[groupIndex];
      CreateGroupStructure(group);
      BadgesShape(group.files, viewedFiles);
      BadgesAgreeWithViewed(group.files, viewedFiles);
      CacheAllWellFormed(old(pdfCache), group.files);
      CacheAllIdempotent(old(pdfCache), group.files);
      PreloadGroupPdfs(group);
      UpdateGroupNavigation();
    }

    /** `markFileAsViewed`: adds the id, turns its badge to "Viewed", marks the current group
        viewed exactly when all its files now are, and updates the buttons. */
    method MarkFileAsViewed(fileId: string)
      requires ViewingConsistent()
      modifies this`viewedFiles, this`viewedGroups, this`fileStatus, this`prevDisabled, this`nextButton
      ensures ViewingConsistent() && NavigationShown()
      ensures viewedFiles == old(viewedFiles) + {fileId}
      ensures viewedGroups == if currentGroupIndex >= 0 && AllViewed(pdfGroups[currentGroupIndex].files, viewedFiles)
                              then old(viewedGroups) + {currentGroupIndex} else old(viewedGroups)
      ensures fileStatus == if fileId in old(fileStatus) then old(fileStatus)[fileId := Viewed]
                            else old(fileStatus)
    {
      MarkingViewedAgrees(fileStatus, viewedFiles, fileId);
      MarkingKeepsGroupsViewed(pdfGroups, viewedGroups, viewedFiles, fileId, currentGroupIndex);
      viewedFiles := viewedFiles + {fileId};
      if fileId in fileStatus {
        fileStatus := fileStatus[fileId := Viewed];
      }
      if IsGroupFullyViewed() {
        viewedGroups := viewedGroups + {currentGroupIndex};
      }
      UpdateGroupNavigation();
    }

    /** `renderPage` up to its first `await`: when the placeholder is in the document and the
        file is found in the current group with a non-empty URL, the URL is cached if absent and
        drawing begins; otherwise (the early return, or the error it throws) nothing changes. */
    method RenderPage(fileId: string, pageNumber: nat, inDocument: bool) returns (drawing: bool)
      requires currentGroupIndex < |pdfGroups|
      modifies this`pdfCache
      ensures drawing <==> RenderProceeds(pdfGroups, currentGroupIndex, fileId, inDocument)
      ensures pdfCache == if drawing then CacheUrl(old(pdfCache), RenderTarget(pdfGroups, currentGroupIndex, fileId).value.url)
                          else old(pdfCache)
    {
      if !inDocument {
        return false;
      }
      var file := RenderTarget(pdfGroups, currentGroupIndex, fileId);
      if file.None? || file.value.url == "" {
        return false;
      }
      EnsureCached(file.value.url);
      return true;
    }

    /** The rest of `renderPage` once pdf.js has drawn the page, for the file the lookup found
        in the current group: the file is marked viewed. Since that group has files, only a
        group with files can be marked. */
    method PageDrawn(fileId: string)
      requires ViewingConsistent()
      requires currentGroupIndex >= 0 && fileId in Ids(pdfGroups[currentGroupIndex].files)
      modifies this`viewedFiles, this`viewedGroups, this`fileStatus, this`prevDisabled, this`nextButton
      ensures ViewingConsistent() && NavigationShown()
      ensures viewedFiles == old(viewedFiles) + {fileId}
      ensures viewedGroups == if AllViewed(pdfGroups[currentGroupIndex].files, viewedFiles)
                              then old(viewedGroups) + {currentGroupIndex} else old(viewedGroups)
      ensures fileStatus == if fileId in old(fileStatus) then old(fileStatus)[fileId := Viewed]
                            else old(fileStatus)
      ensures MarkedGroupsHaveFiles(pdfGroups, old(viewedGroups)) ==> MarkedGroupsHaveFiles(pdfGroups, viewedGroups)
    {
      assert pdfGroups[currentGroupIndex].files != [];
      MarkFileAsViewed(fileId);
    }

    /** The observer callback's test for one entry: an intersecting page whose key is not in
        `loadedPages` is sent to `renderPage` (its key returned in `sent`) and its key recorded.
        `drawing` says whether the lookup there succeeds, in which case the file's document is
        cached if absent. */
    method RequestRender(entry: PageEntry) returns (sent: seq<string>, drawing: bool)
      requires currentGroupIndex < |pdfGroups|
      modifies this`loadedPages, this`pdfCache
      ensures loadedPages == old(loadedPages) + (if entry.isIntersecting then {EntryKey(entry)} else {})
      ensures sent == if entry.isIntersecting && EntryKey(entry) !in old(loadedPages) then [EntryKey(entry)] else []
      ensures drawing <==> Starts(pdfGroups, currentGroupIndex, entry, old(loadedPages))
      ensures pdfCache == if drawing
        then CacheUrl(old(pdfCache), RenderTarget(pdfGroups, currentGroupIndex, entry.fileId).value.url)
        else old(pdfCache)
      ensures CacheOnlyGrows(old(pdfCache), pdfCache)
      ensures WellFormedCache(old(pdfCache)) ==> WellFormedCache(pdfCache)
    {
      sent, drawing := [], false;
      if entry.isIntersecting {
        var key := PageKey(entry.fileId, entry.pageNumber);
        if key !in loadedPages {
          var cache := pdfCache;
          drawing := RenderPage(entry.fileId, entry.pageNumber, entry.inDocument);
          if drawing {
            CacheUrlGrows(cache, RenderTarget(pdfGroups, currentGroupIndex, entry.fileId).value.url);
          }
          sent := [key];
          loadedPages := loadedPages + {key};
        }
      }
    }

    /** The observer callback's step for one entry: the entry is tested and, if fresh, sent to
        `renderPage`; when the lookup there succeeds and pdf.js draws the page
        (`entry.renders`), the file is marked viewed. Nothing else changes. */
    method ObserveEntry(entry: PageEntry) returns (sent: seq<string>)
      requires Valid()
      modifies this`loadedPages, this`viewedFiles, this`viewedGroups,
               this`fileStatus, this`prevDisabled, this`nextButton, this`pdfCache
      ensures Valid()
      ensures loadedPages == old(loadedPages) + (if entry.isIntersecting then {EntryKey(entry)} else {})
      ensures sent == if entry.isIntersecting && EntryKey(entry) !in old(loadedPages) then [EntryKey(entry)] else []
      ensures pdfCache == if Starts(pdfGroups, currentGroupIndex, entry, old(loadedPages))
        then CacheUrl(old(pdfCache), RenderTarget(pdfGroups, currentGroupIndex, entry.fileId).value.url)
        else old(pdfCache)
      ensures CacheOnlyGrows(old(pdfCache), pdfCache)
      ensures var drawn := Starts(pdfGroups, currentGroupIndex, entry, old(loadedPages)) && entry.renders;
        viewedFiles == old(viewedFiles) + (if drawn then {entry.fileId} else {})
      ensures var drawn := Starts(pdfGroups, currentGroupIndex, entry, old(loadedPages)) && entry.renders;
        viewedGroups == if drawn && AllViewed(pdfGroups[currentGroupIndex].files, viewedFiles)
                        then old(viewedGroups) + {currentGroupIndex} else old(viewedGroups)
      ensures var drawn := Starts(pdfGroups, currentGroupIndex, entry, old(loadedPages)) && entry.renders;
        fileStatus == if drawn && entry.fileId in old(fileStatus) then old(fileStatus)[entry.fileId := Viewed]
                      else old(fileStatus)
      ensures var drawn := Starts(pdfGroups, currentGroupIndex, entry, old(loadedPages)) && entry.renders;
        if drawn then NavigationShown() else prevDisabled == old(prevDisabled) && nextButton == old(nextButton)
    {
      var drawing;
      sent, drawing := RequestRender(entry);
      if drawing && entry.renders {
        PageDrawn(entry.fileId);
      }
    }

    /** `ObserveEntry` with the progress of the callback so far: the session's fields after the
        entry, with the keys sent and whether a page was drawn, are one `ObserveStep` from `p`. */
    method ObserveNext(entry: PageEntry, ghost p: Progress) returns (step: seq<string>, ghost q: Progress)
      requires Valid()
      requires p.loaded == loadedPages && p.cache == pdfCache && p.files == viewedFiles
      requires p.marked == viewedGroups && p.status == fileStatus
      requires p.drew ==> NavigationShown()
      modifies this`loadedPages, this`viewedFiles, this`viewedGroups,
               this`fileStatus, this`prevDisabled, this`nextButton, this`pdfCache
      ensures Valid()
      ensures q == ObserveStep(pdfGroups, currentGroupIndex, p, entry)
      ensures q == Progress(p.sent + step, loadedPages, pdfCache, viewedFiles, viewedGroups, fileStatus, q.drew)
      ensures if q.drew then NavigationShown() else prevDisabled == old(prevDisabled) && nextButton == old(nextButton)
    {
      ghost var drawn := Starts(pdfGroups, currentGroupIndex, entry, loadedPages) && entry.renders;
      step := ObserveEntry(entry);
      q := Progress(p.sent + step, loadedPages, pdfCache, viewedFiles, viewedGroups, fileStatus, p.drew || drawn);
      ObserveStepFields(pdfGroups, currentGroupIndex, p, entry, q);
    }

    /** The loop of the IntersectionObserver callback: `ObserveEntry` for each entry in turn,
        which amounts to `ObserveAll` from the session's state; `drew` tells whether any page
        was drawn, and the buttons are redrawn exactly then. */
    method ObserveEach(entries: seq<PageEntry>) returns (sent: seq<string>, ghost drew: bool)
      requires Valid()
      modifies this`loadedPages, this`viewedFiles, this`viewedGroups,
               this`fileStatus, this`prevDisabled, this`nextButton, this`pdfCache
      ensures Valid()
      ensures Progress(sent, loadedPages, pdfCache, viewedFiles, viewedGroups, fileStatus, drew) ==
        ObserveAll(pdfGroups, currentGroupIndex,
                   old(Progress([], loadedPages, pdfCache, viewedFiles, viewedGroups, fileStatus, false)), entries)
      ensures if drew then NavigationShown() else prevDisabled == old(prevDisabled) && nextButton == old(nextButton)
    {
      ghost var start := Progress([], loadedPages, pdfCache, viewedFiles, viewedGroups, fileStatus, false);
      drew := false;
      sent := [];
      var i := 0;
      while i < |entries|
        invariant 0 <= i <= |entries|
        invariant Valid()
        invariant Progress(sent, loadedPages, pdfCache, viewedFiles, viewedGroups, fileStatus, drew) ==
                  ObserveAll(pdfGroups, currentGroupIndex, start, entries[..i])
        invariant if drew then NavigationShown() else prevDisabled == old(prevDisabled) && nextButton == old(nextButton)
      {
        var step;
        ghost var q;
        step, q := ObserveNext(entries[i], Progress(sent, loadedPages, pdfCache, viewedFiles, viewedGroups, fileStatus, drew));
        sent, drew := sent + step, q.drew;
        assert entries[..i + 1][..i] == entries[..i];
        i := i + 1;
      }
      assert entries[..i] == entries;
    }

    /** The IntersectionObserver callback: the entries in turn. The keys sent to `renderPage` are
        the fresh ones, each once, so between two resets a page is rendered at most once; the
        documents of the files found are cached, and the files whose pages are drawn are marked
        viewed, with their badges, the current group and the buttons updated accordingly. */
    method OnPagesIntersecting(entries: seq<PageEntry>) returns (sent: seq<string>)
      requires Valid()
      modifies this`loadedPages, this`viewedFiles, this`viewedGroups,
               this`fileStatus, this`prevDisabled, this`nextButton, this`pdfCache
      ensures Valid()
      ensures loadedPages == old(loadedPages) + IntersectingKeys(entries)
      ensures sent == FreshKeys(entries, old(loadedPages))
      ensures pdfCache == CacheAll(old(pdfCache), RenderStarts(entries, old(loadedPages), pdfGroups, currentGroupIndex))
      ensures CacheOnlyGrows(old(pdfCache), pdfCache)
      ensures var drawn := DrawnIds(entries, old(loadedPages), pdfGroups, currentGroupIndex);
        viewedFiles == old(viewedFiles) + drawn
      ensures var drawn := DrawnIds(entries, old(loadedPages), pdfGroups, currentGroupIndex);
        viewedGroups == if drawn != {} && AllViewed(pdfGroups[currentGroupIndex].files, viewedFiles)
                        then old(viewedGroups) + {currentGroupIndex} else old(viewedGroups)
      ensures fileStatus == MarkBadges(old(fileStatus), DrawnIds(entries, old(loadedPages), pdfGroups, currentGroupIndex))
      ensures if DrawnIds(entries, old(loadedPages), pdfGroups, currentGroupIndex) != {} then NavigationShown()
              else prevDisabled == old(prevDisabled) && nextButton == old(nextButton)
    {
      ghost var start := Progress([], loadedPages, pdfCache, viewedFiles, viewedGroups, fileStatus, false);
      ghost var drew;
      sent, drew := ObserveEach(entries);
      ObserveAllClosed(pdfGroups, currentGroupIndex, start, entries);
      assert [] + FreshKeys(entries, start.loaded) == FreshKeys(entries, start.loaded);
      CacheAllGrows(old(pdfCache), RenderStarts(entries, old(loadedPages), pdfGroups, currentGroupIndex));
    }

    /** The end of `loadPdfFile`, when pdf.js has opened the document (`loaded`) or failed: on
        success the file's badge, if still on the page, reads "Ready". */
    method PdfFileLoaded(fileId: string, loaded: bool)
      requires Valid()
      modifies this`fileStatus
      ensures Valid()
      ensures fileStatus == if loaded && fileId in old(fileStatus) then old(fileStatus)[fileId := Ready]
                            else old(fileStatus)
    {
      if loaded && fileId in fileStatus {
        fileStatus := fileStatus[fileId := Ready];
      }
    }

    /** `goToPreviousGroup`: moves back one group when not on the first; the viewed sets are
        never touched. */
    method GoToPreviousGroup()
      requires Valid()
      modifies this`fileStatus, this`loadedPages, this`currentGroupIndex,
               this`currentFileIndex, this`pdfCache, this`prevDisabled, this`nextButton
      ensures Valid()
      ensures old(currentGroupIndex) <= 0 ==> unchanged(this`fileStatus, this`loadedPages,
          this`currentGroupIndex, this`currentFileIndex, this`pdfCache,
          this`prevDisabled, this`nextButton)
      ensures old(currentGroupIndex) > 0 ==>
        && currentGroupIndex == old(currentGroupIndex) - 1 && currentFileIndex == 0
        && loadedPages == {} && NavigationShown()
        && fileStatus == Badges(pdfGroups[currentGroupIndex].files, viewedFiles)
        && pdfCache == CacheAll(old(pdfCache), pdfGroups[currentGroupIndex].files)
    {
      if currentGroupIndex > 0 {
        LoadGroup(currentGroupIndex - 1);
      }
    }

    /** `showConsentConfirmation`: posts the final consent with every viewed group and file and
        shows the button disabled as "Signed". */
    method ShowConsentConfirmation(timestamp: string)
      modifies this`consents, this`nextButton
      ensures consents == old(consents) + [FinalConsent(timestamp, viewedGroups, viewedFiles)]
      ensures nextButton == NextButton(Signed, true)
    {
      consents := consents + [FinalConsent(timestamp, viewedGroups, viewedFiles)];
      nextButton := NextButton(Signed, true);
    }

    /** `goToNextGroup`: signs on the last group once every group is viewed; otherwise, when not
        on the last group, posts a consent for the current group and moves to the next one,
        whether or not that group has been viewed; otherwise does nothing. */
    method GoToNextGroup(timestamp: string)
      requires Valid()
      modifies this`fileStatus, this`loadedPages, this`currentGroupIndex,
               this`currentFileIndex, this`pdfCache, this`prevDisabled,
               this`nextButton, this`consents
      ensures Valid()
      ensures old(NextClick(|pdfGroups|, currentGroupIndex, viewedGroups)) == SignAll ==>
        && consents == old(consents) + [FinalConsent(timestamp, viewedGroups, viewedFiles)]
        && nextButton == NextButton(Signed, true)
        && unchanged(this`fileStatus, this`loadedPages, this`currentGroupIndex,
                     this`currentFileIndex, this`pdfCache, this`prevDisabled)
        && forall i :: 0 <= i < |pdfGroups| ==> AllViewed(pdfGroups[i].files, viewedFiles)
      ensures old(NextClick(|pdfGroups|, currentGroupIndex, viewedGroups)) == ConsentAndAdvance ==>
        && consents == old(consents) + [GroupConsent(old(currentGroupIndex),
             ConsentGroupName(pdfGroups, old(currentGroupIndex)), timestamp, viewedFiles)]
        && currentGroupIndex == old(currentGroupIndex) + 1 && currentFileIndex == 0
        && loadedPages == {} && NavigationShown()
        && fileStatus == Badges(pdfGroups[currentGroupIndex].files, viewedFiles)
        && pdfCache == CacheAll(old(pdfCache), pdfGroups[currentGroupIndex].files)
      ensures old(NextClick(|pdfGroups|, currentGroupIndex, viewedGroups)) == Stay ==> unchanged(
          this`fileStatus, this`loadedPages, this`currentGroupIndex,
          this`currentFileIndex, this`pdfCache, this`prevDisabled, this`nextButton, this`consents)
    {
      var allGroupsViewed := |pdfGroups| > 0 && |viewedGroups| >= |pdfGroups|;
      if allGroupsViewed && currentGroupIndex == |pdfGroups| - 1 {
        SignMeansAllFilesViewed(pdfGroups, viewedGroups, viewedFiles);
        ShowConsentConfirmation(timestamp);
      } else if currentGroupIndex < |pdfGroups| - 1 {
        consents := consents + [GroupConsent(currentGroupIndex,
          ConsentGroupName(pdfGroups, currentGroupIndex), timestamp, viewedFiles)];
        LoadGroup(currentGroupIndex + 1);
      }
    }

    /** `initApp` once the catalog reply has arrived: on a usable reply the groups are stored
        and the first group, if any, is shown; otherwise the user is alerted (`ok` is false)
        and nothing changes. */
    method InitApp(reply: HttpReply<CatalogJson>) returns (ok: bool)
      requires Valid() && pdfGroups == []
      modifies this`pdfGroups, this`fileStatus, this`loadedPages,
               this`currentGroupIndex, this`currentFileIndex, this`pdfCache,
               this`prevDisabled, this`nextButton
      ensures Valid()
      ensures ok <==> NormalizeCatalog(reply).Ok?
      ensures !ok ==> unchanged(this`pdfGroups, this`fileStatus, this`loadedPages,
          this`currentGroupIndex, this`currentFileIndex, this`pdfCache,
          this`prevDisabled, this`nextButton)
      ensures ok ==> pdfGroups == NormalizeCatalog(reply).value
      ensures ok && pdfGroups != [] ==>
        currentGroupIndex == 0 && currentFileIndex == 0 && loadedPages == {} && NavigationShown()
        && fileStatus == Badges(pdfGroups[0].files, viewedFiles)
        && pdfCache == CacheAll(old(pdfCache), pdfGroups[0].files)
      ensures ok && pdfGroups == [] ==> unchanged(this`fileStatus, this`loadedPages,
          this`currentGroupIndex, this`currentFileIndex, this`pdfCache, this`prevDisabled,
          this`nextButton)
    {
      var groups := NormalizeCatalog(reply);
      if groups.Err? {
        return false;
      }
      pdfGroups := groups.value;
      if |pdfGroups| > 0 {
        LoadGroup(0);
        UpdateGroupNavigation();
      }
      return true;
    }
  }
}
