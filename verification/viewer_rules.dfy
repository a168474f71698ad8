/** The decisions the viewer takes, as functions of its state: when a group counts as viewed,
    what a click on the "next" button does and how the buttons look, how rendered pages are
    keyed, and how the catalog reply is read. */
module ViewerRules {
  import opened Wrappers
  import opened Catalog
  import opened Text

  /** The text of the "next" button: "Consent & Go to Next Group", "Sign" or "Signed". */
  datatype NextLabel = ConsentAndNext | Sign | Signed

  /** The logical state of the "next" button. */
  datatype NextButton = NextButton(caption: NextLabel, disabled: bool)

  /** What a click on the "next" button does. */
  datatype NextAction = SignAll | ConsentAndAdvance | Stay

  /** The status badge shown beside a file: "Not Viewed", "Ready" or "Viewed". */
  datatype FileStatus = NotViewed | Ready | Viewed

  /** The badge a file gets when its group is laid out. */
  function InitialStatus(id: string, viewedFiles: set<string>): (s: FileStatus)
    ensures s == Viewed <==> id in viewedFiles
    ensures s != Ready
  {
    if id in viewedFiles then Viewed else NotViewed
  }

  /** `group.files.every((file) => viewedFiles.has(file.id))`. */
  function AllViewed(files: seq<FileDesc>, viewedFiles: set<string>): (r: bool)
    ensures r <==> forall i :: 0 <= i < |files| ==> files[i].id in viewedFiles
  {
    files == [] || (files[0].id in viewedFiles && AllViewed(files[1..], viewedFiles))
  }

  /** `pdfGroups.length > 0 && viewedGroups.size >= pdfGroups.length`: the size test stands for
      "every group is marked" as long as only indices of groups are marked. */
  predicate AllGroupsViewed(groupCount: nat, viewedGroups: set<int>)
    ensures (forall i :: 0 <= i < groupCount ==> i in viewedGroups) ==>
      (AllGroupsViewed(groupCount, viewedGroups) <==> groupCount > 0)
    ensures AllGroupsViewed(groupCount, viewedGroups) && (forall g :: g in viewedGroups ==> 0 <= g < groupCount) ==>
      forall i :: 0 <= i < groupCount ==> i in viewedGroups
  {
    CountCoversRange(viewedGroups, groupCount);
    groupCount > 0 && |viewedGroups| >= groupCount
  }

  /** The branch `goToNextGroup` takes. */
  function NextClick(groupCount: nat, current: int, viewedGroups: set<int>): (action: NextAction)
    ensures action == SignAll ==> groupCount > 0 && current == groupCount - 1
    ensures action == ConsentAndAdvance ==> current + 1 < groupCount
    ensures action == Stay ==> current >= groupCount - 1
    ensures current < groupCount - 1 ==> action == ConsentAndAdvance
    ensures (forall g :: g in viewedGroups ==> 0 <= g < groupCount) ==>
      (action == SignAll <==>
        groupCount > 0 && current == groupCount - 1 && forall i :: 0 <= i < groupCount ==> i in viewedGroups)
  {
    if AllGroupsViewed(groupCount, viewedGroups) && current == groupCount - 1 then SignAll
    else if current < groupCount - 1 then ConsentAndAdvance
    else Stay
  }

  /** The "next" button as `updateGroupNavigation` leaves it: labelled "Sign" exactly when a
      click signs, and enabled exactly when a click does something. */
  function NextButtonState(groupCount: nat, current: int, viewedGroups: set<int>): (b: NextButton)
    ensures b.caption != Signed
    ensures b.caption == Sign <==> NextClick(groupCount, current, viewedGroups) == SignAll
    ensures !b.disabled <==> NextClick(groupCount, current, viewedGroups) != Stay
  {
    if AllGroupsViewed(groupCount, viewedGroups) && current == groupCount - 1 then NextButton(Sign, false)
    else NextButton(ConsentAndNext, current >= groupCount - 1)
  }

  /** Advancing is not gated on the current group being viewed: with nothing viewed, the first
      of two groups still offers "Consent & Go to Next Group". */
  lemma AdvanceNotGatedOnViewing(groups: seq<Group>, viewedFiles: set<string>)
    requires |groups| >= 2 && groups[0].files != [] && viewedFiles == {}
    ensures !AllViewed(groups[0].files, viewedFiles)
    ensures NextClick(|groups|, 0, {}) == ConsentAndAdvance
    ensures !NextButtonState(|groups|, 0, {}).disabled
  {
  }

  /** The set {0, ..., n - 1}. */
  function Indices(n: nat): (s: set<int>)
    ensures forall i :: i in s <==> 0 <= i < n
    ensures |s| == n
  {
    if n == 0 then {} else Indices(n - 1) + {n - 1}
  }

  lemma SubsetCardinality(a: set<int>, b: set<int>)
    requires a <= b
    ensures |a| <= |b|
  {
    assert b == a + (b - a);
    assert a * (b - a) == {};
  }

  /** A set holding every index 0 .. n - 1 has at least n members; a set of such indices with at
      least n members holds every one of them. */
  lemma CountCoversRange(s: set<int>, n: nat)
    ensures (forall i :: 0 <= i < n ==> i in s) ==> |s| >= n
    ensures |s| >= n && (forall g :: g in s ==> 0 <= g < n) ==> forall i :: 0 <= i < n ==> i in s
  {
    var all := Indices(n);
    if forall i :: 0 <= i < n ==> i in s {
      SubsetCardinality(all, s);
    }
    if |s| >= n && (forall g :: g in s ==> 0 <= g < n) && exists i :: 0 <= i < n && i !in s {
      var i :| 0 <= i < n && i !in s;
      SubsetCardinality(s, all - {i});
      assert false;
    }
  }

  /** The invariant `markFileAsViewed` keeps: an index enters `viewedGroups` only for a group
      whose files are all viewed. */
  ghost predicate MarkedGroupsViewed(groups: seq<Group>, viewedGroups: set<int>, viewedFiles: set<string>)
  {
    forall g :: g in viewedGroups ==> 0 <= g < |groups| && AllViewed(groups[g].files, viewedFiles)
  }

  /** `markFileAsViewed` keeps the invariant: the current group is added exactly when all its
      files are viewed once the new file is. */
  lemma MarkingKeepsGroupsViewed(groups: seq<Group>, viewedGroups: set<int>, viewedFiles: set<string>,
                                 fileId: string, current: int)
    requires MarkedGroupsViewed(groups, viewedGroups, viewedFiles)
    requires current < |groups|
    ensures MarkedGroupsViewed(groups,
      if 0 <= current && AllViewed(groups[current].files, viewedFiles + {fileId})
      then viewedGroups + {current} else viewedGroups,
      viewedFiles + {fileId})
  {
  }

  /** When "Sign" is offered, every file of every group has been viewed. */
  lemma SignMeansAllFilesViewed(groups: seq<Group>, viewedGroups: set<int>, viewedFiles: set<string>)
    requires MarkedGroupsViewed(groups, viewedGroups, viewedFiles)
    requires AllGroupsViewed(|groups|, viewedGroups)
    ensures forall i :: 0 <= i < |groups| ==> AllViewed(groups[i].files, viewedFiles)
  {
  }

  /** Only groups with files are marked viewed: a group is marked when one of its files is drawn
      while it is the current group. */
  ghost predicate MarkedGroupsHaveFiles(groups: seq<Group>, viewedGroups: set<int>)
  {
    forall g :: g in viewedGroups ==> 0 <= g < |groups| && groups[g].files != []
  }

  /** While only groups with files are marked, a catalog holding a group without files never
      offers "Sign". */
  lemma EmptyGroupBlocksSigning(groups: seq<Group>, viewedGroups: set<int>, empty: nat)
    requires MarkedGroupsHaveFiles(groups, viewedGroups)
    requires empty < |groups| && groups[empty].files == []
    ensures !AllGroupsViewed(|groups|, viewedGroups)
  {
  }

  /** `files.find((f) => f.id === id)`: the first file carrying the id. */
  function FindById(files: seq<FileDesc>, id: string): (r: Option<FileDesc>)
    ensures r.None? <==> forall i :: 0 <= i < |files| ==> files[i].id != id
    ensures r.Some? ==> r.value.id == id && r.value in files
  {
    if files == [] then None
    else if files[0].id == id then Some(files[0])
    else
      FindById(files[1..], id)
  }

  /** What `find` returns is the first file carrying the id: no earlier file has it. */
  lemma {:induction false} FindByIdFirst(files: seq<FileDesc>, id: string, k: nat)
    requires k < |files| && files[k].id == id
    requires forall j :: 0 <= j < k ==> files[j].id != id
    ensures FindById(files, id) == Some(files[k])
  {
    if k > 0 {
      assert files[0].id != id;
      FindByIdFirst(files[1..], id, k - 1);
    }
  }

  /** The file `renderPage` looks up: the first file of the current group with the id, and none
      before a group is shown. */
  function RenderTarget(groups: seq<Group>, current: int, fileId: string): (r: Option<FileDesc>)
    requires current < |groups|
    ensures r.Some? ==> current >= 0 && r.value.id == fileId && r.value in groups[current].files
    ensures r.None? <==> current < 0 || fileId !in Ids(groups[current].files)
  {
    if current < 0 then None else FindById(groups[current].files, fileId)
  }

  /** Whether `renderPage` gets past its checks: the placeholder is in the document and the file
      is found in the current group with a non-empty URL. */
  predicate RenderProceeds(groups: seq<Group>, current: int, fileId: string, inDocument: bool)
    requires current < |groups|
    ensures RenderProceeds(groups, current, fileId, inDocument) ==>
      current >= 0 && fileId in Ids(groups[current].files) && groups[current].files != []
  {
    inDocument && RenderTarget(groups, current, fileId).Some? && RenderTarget(groups, current, fileId).value.url != ""
  }

  /** The `loadedPages` key of a page: `${fileId}-${pageNum}`. */
  function PageKey(fileId: string, pageNumber: nat): (key: string)
    ensures |key| > |fileId| + 1 && key[..|fileId|] == fileId && key[|fileId|] == '-'
    ensures forall i :: |fileId| < i < |key| ==> IsDigit(key[i])
    ensures ParseNat(key[|fileId| + 1..]) == pageNumber
  {
    var digits := NatToString(pageNumber);
    ParseNatToString(pageNumber);
    var key := fileId + "-" + digits;
    assert key[|fileId| + 1..] == digits;
    key
  }

  /** Two different pages never share a key, so the dedupe never suppresses a page that was
      not rendered. */
  lemma PageKeyInjective(f1: string, p1: nat, f2: string, p2: nat)
    requires PageKey(f1, p1) == PageKey(f2, p2)
    ensures f1 == f2 && p1 == p2
  {
    var k := PageKey(f1, p1);
    var d1, d2 := NatToString(p1), NatToString(p2);
    assert k[|f1|] == '-' && k[|f2|] == '-';
    assert |f1| == |f2|;
    assert f1 == k[..|f1|] == f2;
    assert d1 == k[|f1| + 1..] == d2;
    NatToStringInjective(p1, p2);
  }

  /** One IntersectionObserver entry for a page placeholder, with what will become of it:
      whether its placeholder is still in the document and whether pdf.js renders it. */
  datatype PageEntry = PageEntry(
    fileId: string, pageNumber: nat, isIntersecting: bool, inDocument: bool, renders: bool)

  function EntryKey(e: PageEntry): string
  {
    PageKey(e.fileId, e.pageNumber)
  }

  /** The keys of the intersecting entries. */
  function IntersectingKeys(entries: seq<PageEntry>): set<string>
  {
    set e | e in entries && e.isIntersecting :: EntryKey(e)
  }

  /** The intersecting keys of a list are those of all but its last entry, plus the last
      entry's key when it intersects. */
  lemma IntersectingKeysOfLast(entries: seq<PageEntry>)
    requires entries != []
    ensures IntersectingKeys(entries) == IntersectingKeys(entries[..|entries| - 1]) +
      (if entries[|entries| - 1].isIntersecting then {EntryKey(entries[|entries| - 1])} else {})
  {
    assert entries == entries[..|entries| - 1] + [entries[|entries| - 1]];
  }

  predicate NoDuplicates<T(==)>(s: seq<T>)
  {
    forall i, j :: 0 <= i < j < |s| ==> s[i] != s[j]
  }

  /** The keys the observer callback sends to `renderPage`, in order, when `seen` is
      `loadedPages` at the start: each intersecting key not seen before, once. */
  function FreshKeys(entries: seq<PageEntry>, seen: set<string>): (keys: seq<string>)
    ensures forall k :: k in keys <==> k in IntersectingKeys(entries) && k !in seen
    ensures NoDuplicates(keys)
  {
    if entries == [] then []
    else
      var prefix, e := entries[..|entries| - 1], entries[|entries| - 1];
      IntersectingKeysOfLast(entries);
      var keys := FreshKeys(prefix, seen);
      if e.isIntersecting && EntryKey(e) !in seen && EntryKey(e) !in IntersectingKeys(prefix) then
        keys + [EntryKey(e)]
      else
        keys
  }

  /** The fresh keys of a list are those of all but its last entry, followed by the last
      entry's key when it intersects and was seen neither before nor earlier in the list. */
  lemma FreshKeysOfLast(entries: seq<PageEntry>, seen: set<string>)
    requires entries != []
    ensures var prefix, e := entries[..|entries| - 1], entries[|entries| - 1];
      FreshKeys(entries, seen) == FreshKeys(prefix, seen) +
        (if e.isIntersecting && EntryKey(e) !in seen + IntersectingKeys(prefix) then [EntryKey(e)] else [])
  {
  }

  /** Whether the callback hands the entry to `renderPage` and the lookup there succeeds, when
      `loaded` is `loadedPages` at that moment: the entry's file is then cached and drawn. */
  predicate Starts(groups: seq<Group>, current: int, e: PageEntry, loaded: set<string>)
    requires current < |groups|
  {
    e.isIntersecting && EntryKey(e) !in loaded && RenderProceeds(groups, current, e.fileId, e.inDocument)
  }

  /** The files whose documents rendering fetches, in order, for the entries of one callback. */
  function RenderStarts(entries: seq<PageEntry>, seen: set<string>, groups: seq<Group>, current: int)
    : (files: seq<FileDesc>)
    requires current < |groups|
    ensures forall f :: f in files ==> current >= 0 && f in groups[current].files
  {
    if entries == [] then []
    else
      var prefix, e := entries[..|entries| - 1], entries[|entries| - 1];
      RenderStarts(prefix, seen, groups, current) +
        (if Starts(groups, current, e, seen + IntersectingKeys(prefix))
         then [RenderTarget(groups, current, e.fileId).value] else [])
  }

  /** The ids of the files whose pages are drawn for the entries of one callback: only files of
      the current group. */
  function DrawnIds(entries: seq<PageEntry>, seen: set<string>, groups: seq<Group>, current: int)
    : (ids: set<string>)
    requires current < |groups|
    ensures forall id :: id in ids ==> current >= 0 && id in Ids(groups[current].files)
  {
    if entries == [] then {}
    else
      var prefix, e := entries[..|entries| - 1], entries[|entries| - 1];
      DrawnIds(prefix, seen, groups, current) +
        (if Starts(groups, current, e, seen + IntersectingKeys(prefix)) && e.renders then {e.fileId} else {})
  }

  /** What the observer has done after one more entry, when `loaded` is `loadedPages` before it:
      the entry's key is recorded if it intersects; it is sent if it was not loaded; its file is
      fetched if it starts a render, and counted as drawn if the page is then drawn. */
  lemma ObserverPrefixStep(entries: seq<PageEntry>, i: nat, seen: set<string>, loaded: set<string>,
                           groups: seq<Group>, current: int)
    requires i < |entries| && current < |groups|
    requires loaded == seen + IntersectingKeys(entries[..i])
    ensures var e := entries[i];
      IntersectingKeys(entries[..i + 1]) ==
        IntersectingKeys(entries[..i]) + (if e.isIntersecting then {EntryKey(e)} else {})
    ensures var e := entries[i];
      FreshKeys(entries[..i + 1], seen) ==
        FreshKeys(entries[..i], seen) + (if e.isIntersecting && EntryKey(e) !in loaded then [EntryKey(e)] else [])
    ensures var e := entries[i];
      RenderStarts(entries[..i + 1], seen, groups, current) == RenderStarts(entries[..i], seen, groups, current) +
        (if Starts(groups, current, e, loaded) then [RenderTarget(groups, current, e.fileId).value] else [])
    ensures var e := entries[i];
      DrawnIds(entries[..i + 1], seen, groups, current) == DrawnIds(entries[..i], seen, groups, current) +
        (if Starts(groups, current, e, loaded) && e.renders then {e.fileId} else {})
  {
    assert entries[..i + 1][..i] == entries[..i];
    IntersectingKeysOfLast(entries[..i + 1]);
    FreshKeysOfLast(entries[..i + 1], seen);
  }

  /** One more entry's effect on the viewed sets, in the closed form the callback keeps: the
      files drawn are added, and the current group is added when some file was drawn and the
      group is then fully viewed. */
  lemma ViewedStep(entries: seq<PageEntry>, i: nat, seen: set<string>, loaded: set<string>,
                   groups: seq<Group>, current: int,
                   files0: set<string>, marked0: set<int>, files1: set<string>, marked1: set<int>,
                   files2: set<string>, marked2: set<int>)
    requires i < |entries| && current < |groups|
    requires loaded == seen + IntersectingKeys(entries[..i])
    requires var drawn := DrawnIds(entries[..i], seen, groups, current);
      && files1 == files0 + drawn
      && marked1 == if drawn != {} && AllViewed(groups[current].files, files1) then marked0 + {current} else marked0
    requires var now := Starts(groups, current, entries[i], loaded) && entries[i].renders;
      && files2 == files1 + (if now then {entries[i].fileId} else {})
      && marked2 == if now && AllViewed(groups[current].files, files2) then marked1 + {current} else marked1
    ensures var drawn := DrawnIds(entries[..i + 1], seen, groups, current);
      && files2 == files0 + drawn
      && marked2 == if drawn != {} && AllViewed(groups[current].files, files2) then marked0 + {current} else marked0
  {
    ObserverPrefixStep(entries, i, seen, loaded, groups, current);
    if current >= 0 {
      var now := Starts(groups, current, entries[i], loaded) && entries[i].renders;
      MarkStep(groups[current].files, current, DrawnIds(entries[..i], seen, groups, current), now, entries[i].fileId,
               files0, marked0, files1, marked1, files2, marked2);
    }
  }

  /** The marking of the current group after one more drawn file or none, in terms of sets. */
  lemma MarkStep(files: seq<FileDesc>, current: int, drawn: set<string>, now: bool, id: string,
                 files0: set<string>, marked0: set<int>, files1: set<string>, marked1: set<int>,
                 files2: set<string>, marked2: set<int>)
    requires files1 == files0 + drawn
    requires marked1 == if drawn != {} && AllViewed(files, files1) then marked0 + {current} else marked0
    requires files2 == files1 + (if now then {id} else {})
    requires marked2 == if now && AllViewed(files, files2) then marked1 + {current} else marked1
    ensures var more := drawn + (if now then {id} else {});
      && files2 == files0 + more
      && marked2 == if more != {} && AllViewed(files, files2) then marked0 + {current} else marked0
  {
    if now {
      if !AllViewed(files, files2) {
        AllViewedGrows(files, files1, files2);
      }
    } else {
      assert drawn + {} == drawn && files1 + {} == files1;
    }
  }

  /** Viewing more files never makes a list less viewed. */
  lemma AllViewedGrows(files: seq<FileDesc>, viewedFiles: set<string>, more: set<string>)
    requires viewedFiles <= more
    ensures AllViewed(files, viewedFiles) ==> AllViewed(files, more)
  {
  }

  /** The name a group consent carries: `pdfGroups[i]?.name || `Group ${i + 1}``. */
  function ConsentGroupName(groups: seq<Group>, index: int): (name: string)
    ensures name != ""
    ensures 0 <= index < |groups| && groups[index].name != "" ==> name == groups[index].name
  {
    if 0 <= index < |groups| && groups[index].name != "" then groups[index].name
    else "Group " + IntToString(index + 1)
  }

  const DefaultGroupName: string := "All PDFs"

  /** How `initApp` reads the catalog reply: a non-OK status fails, `groups` is taken as it is,
      a legacy `files` list becomes the single group "All PDFs", and anything else fails. */
  function NormalizeCatalog(reply: HttpReply<CatalogJson>): (r: Result<seq<Group>, string>)
    ensures r.Ok? <==> IsOk(reply.status) && (reply.body.groups.Some? || reply.body.files.Some?)
    ensures r.Ok? && reply.body.groups.Some? ==> r.value == reply.body.groups.value
    ensures r.Ok? && reply.body.groups.None? ==>
      |r.value| == 1 && r.value[0].name == DefaultGroupName && r.value[0].files == reply.body.files.value
  {
    if !IsOk(reply.status) then Err("Server responded with status: " + NatToString(reply.status))
    else if reply.body.groups.Some? then Ok(reply.body.groups.value)
    else if reply.body.files.Some? then Ok([Group(DefaultGroupName, reply.body.files.value)])
    else Err("No PDF files or groups found in server response")
  }
}
