/** The records the catalogue viewer receives from the comics API and keeps in its lists. */
module Comics {
  import opened Options

  /** Image location; the viewer shows `path + "." + extension`. */
  datatype Thumbnail = Thumbnail(path: string, extension: string)

  /** One entry of a comic's `dates` array, e.g. kind "onsaleDate" with an ISO date text. */
  datatype DateEntry = DateEntry(kind: string, date: string)

  /** A comic record; `thumbnail` is None when the record carries no image object. */
  datatype Comic = Comic(
    id: int,
    title: string,
    description: string,
    thumbnail: Option<Thumbnail>,
    dates: seq<DateEntry>)

  datatype Character = Character(id: int, name: string, thumbnail: Option<Thumbnail>)

  /** `comic.thumbnail && comic.thumbnail.path && comic.thumbnail.extension` is truthy:
      an empty string is falsy in JavaScript. */
  predicate Displayable(c: Comic)
  {
    c.thumbnail.Some? && c.thumbnail.value.path != "" && c.thumbnail.value.extension != ""
  }

  /** `list.some(x => x.id === id)`. */
  predicate HasId(list: seq<Comic>, id: int)
  {
    exists i :: 0 <= i < |list| && list[i].id == id
  }

  /** No two entries of `list` share an id. */
  predicate DistinctIds(list: seq<Comic>)
  {
    forall i, j :: 0 <= i < j < |list| ==> list[i].id != list[j].id
  }

  /** `HasId` asks whether some element carries the id. */
  lemma HasIdByElement(list: seq<Comic>, id: int)
    ensures HasId(list, id) <==> exists x :: x in list && x.id == id
  {
    if HasId(list, id) {
      var i :| 0 <= i < |list| && list[i].id == id;
      assert list[i] in list;
    }
  }

  lemma HasIdConcat(a: seq<Comic>, b: seq<Comic>, id: int)
    ensures HasId(a + b, id) <==> HasId(a, id) || HasId(b, id)
  {
    HasIdByElement(a, id);
    HasIdByElement(b, id);
    HasIdByElement(a + b, id);
  }
}
