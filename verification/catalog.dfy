/** The shapes exchanged between the catalog service and the viewer over HTTP. */
module Catalog {
  import opened Wrappers

  /** One PDF as the catalog lists it: `{id, name, url}`. */
  datatype FileDesc = FileDesc(id: string, name: string, url: string)

  /** A named group of PDFs, reviewed in order. */
  datatype Group = Group(name: string, files: seq<FileDesc>)

  /** The keys of a catalog reply's JSON body that either side reads or writes.
      A key that is absent (or holds a falsy value) is `None`. */
  datatype CatalogJson = CatalogJson(
    groups: Option<seq<Group>>,
    files: Option<seq<FileDesc>>,
    error: Option<string>,
    message: Option<string>)

  /** An HTTP reply: a status code and a body. */
  datatype HttpReply<B> = HttpReply(status: nat, body: B)

  /** `response.ok` of the Fetch API. */
  predicate IsOk(status: nat)
  {
    200 <= status <= 299
  }

  function Ids(files: seq<FileDesc>): set<string>
  {
    set f | f in files :: f.id
  }

  function Urls(files: seq<FileDesc>): set<string>
  {
    set f | f in files :: f.url
  }

  /** The ids and URLs of a list are those of all but its last file, plus the last file's. */
  lemma IdsAndUrlsOfLast(files: seq<FileDesc>)
    requires files != []
    ensures Ids(files) == Ids(files[..|files| - 1]) + {files[|files| - 1].id}
    ensures Urls(files) == Urls(files[..|files| - 1]) + {files[|files| - 1].url}
  {
    assert files == files[..|files| - 1] + [files[|files| - 1]];
  }

  function Names(files: seq<FileDesc>): (names: seq<string>)
  {
    seq(|files|, i requires 0 <= i < |files| => files[i].name)
  }
}
