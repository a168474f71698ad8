/** The two halves together: what the catalog service answers is what the viewer reads, and
    every URL the catalog hands out is served. */
module EndToEnd {
  import opened Wrappers
  import opened Catalog
  import opened Server
  import opened Text
  import opened ViewerRules
  import opened Viewer

  /** A successful catalog reply is accepted by `initApp` as exactly the groups the server built,
      one per configured group, in configured order. */
  lemma ViewerAcceptsCatalog(config: seq<GroupConfig>, listing: seq<string>)
    ensures NormalizeCatalog(CatalogRoute(true, Some(listing), config)) == Ok(BuildCatalog(config, listing))
    ensures |NormalizeCatalog(CatalogRoute(true, Some(listing), config)).value| == |config|
  {
  }

  /** Both failures of the catalog route (no directory, or an unreadable one) make `initApp` give
      up, so the viewer never shows a catalog it did not get. */
  lemma ViewerRejectsCatalogErrors(dirExists: bool, listing: Option<seq<string>>, config: seq<GroupConfig>)
    requires !dirExists || listing.None?
    ensures NormalizeCatalog(CatalogRoute(dirExists, listing, config)).Err?
  {
  }

  /** Every URL the catalog lists routes back to the file it names, and that file is served with
      status 200, given that directory entries never contain `/`. */
  lemma CatalogUrlsAreServed(config: seq<GroupConfig>, listing: seq<string>, i: int, d: FileDesc)
    requires forall f :: f in listing ==> '/' !in f
    requires 0 <= i < |config| && d in BuildCatalog(config, listing)[i].files
    ensures RouteFilename(d.url) == Some(d.name)
    ensures ServePdf(d.name, set f | f in listing).status == 200
  {
    assert d.url == PdfRoute + d.name && d.name in listing && EndsWith(d.name, PdfSuffix);
    assert d.url[..|PdfRoute|] == PdfRoute && d.url[|PdfRoute|..] == d.name;
  }

  /** Every configured file name is a `.pdf` name. */
  lemma ConfiguredNamesArePdf()
    ensures forall g, f :: 0 <= g < |PdfGroups| && f in PdfGroups[g].files ==> EndsWith(f, PdfSuffix)
  {
    assert EndsWith("1.pdf", PdfSuffix) && EndsWith("2.pdf", PdfSuffix) && EndsWith("3.pdf", PdfSuffix);
    assert EndsWith("4.pdf", PdfSuffix) && EndsWith("5.pdf", PdfSuffix);
  }

  /** With the configured grouping, a listing that holds every configured file gives the three
      groups whole, in configured order. */
  lemma ConfiguredCatalogWhenAllPresent(listing: seq<string>)
    requires forall g, f :: 0 <= g < |PdfGroups| && f in PdfGroups[g].files ==> f in listing
    ensures var groups := BuildCatalog(PdfGroups, listing);
      && |groups| == 3
      && Names(groups[0].files) == ["1.pdf", "2.pdf"]
      && Names(groups[1].files) == ["3.pdf", "4.pdf"]
      && Names(groups[2].files) == ["5.pdf"]
  {
    var available := AvailableFiles(listing);
    ConfiguredNamesArePdf();
    forall g | 0 <= g < |PdfGroups|
      ensures KeepAvailable(PdfGroups[g].files, available) == PdfGroups[g].files
    {
      KeepAvailableAll(PdfGroups[g].files, available);
    }
  }

  /** The descriptor of a configured file: "1.pdf" is id "1", served at "/api/pdf/1.pdf". */
  lemma DescribeConfiguredFile()
    ensures Describe("1.pdf") == FileDesc("1", "1.pdf", "/api/pdf/1.pdf")
  {
    assert EndsWith("1.pdf", PdfSuffix);
    assert "1.pdf"[..|"1.pdf"| - |PdfSuffix|] == "1";
  }

  /** With the configured grouping and no `.pdf` file on disk, the three groups are still
      returned, each without files. A session showing that catalog never has a group marked
      viewed, so "Sign" is never offered. */
  lemma EmptyDirectoryNeverSigns(v: PdfViewer, listing: seq<string>)
    requires forall f :: f in listing ==> !EndsWith(f, PdfSuffix)
    requires v.Valid() && v.pdfGroups == BuildCatalog(PdfGroups, listing)
    ensures |v.pdfGroups| == 3 && forall g :: 0 <= g < 3 ==> v.pdfGroups[g].files == []
    ensures v.viewedGroups == {}
    ensures NextClick(|v.pdfGroups|, v.currentGroupIndex, v.viewedGroups) != SignAll
    ensures NextButtonState(|v.pdfGroups|, v.currentGroupIndex, v.viewedGroups).caption != Sign
  {
    var groups := BuildCatalog(PdfGroups, listing);
    forall g | 0 <= g < 3 ensures groups[g].files == [] {
      assert |Names(groups[g].files)| == |KeepAvailable(PdfGroups[g].files, AvailableFiles(listing))|;
    }
    EmptyGroupBlocksSigning(groups, v.viewedGroups, 0);
    assert forall g :: g !in v.viewedGroups;
  }
}
