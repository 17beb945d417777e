/** The album-level logic of `run_app` and `process_albums` (spelt/__init__.py): the album
    catalog with its pseudo-album, the checklist labels and how an album id is read back from
    a chosen label, the filter that turns the chosen labels into albums, and the page offsets
    requested for each album. */
module Driver {
  import opened Common
  import Text
  import Photos
  import Picker

  /** `USER_PHOTOS_ALBUM_ID`: the id of the pseudo-album of photos the user is tagged in. */
  const UserPhotosAlbumId: int := -9999999

  /** The offset step of `process_albums`, and the `count` `photos.getUserPhotos` sends. */
  const PageSize: int := 1000

  /** The album dictionary: `id`, `title` and `size` (its photo count). */
  datatype Album = Album(id: int, title: string, size: int)

  /** `get_user_photos_album`, given the `count` the service reported. */
  function UserPhotosAlbum(count: int): Album {
    Album(UserPhotosAlbumId, "Photos with me", count)
  }

  /** `get_albums` followed by `albums.insert(0, get_user_photos_album(...))`. A failed listing
      (`None`) makes the insertion raise, which is `None` here. */
  function Catalog(listed: Option<seq<Album>>, userPhotos: int): (r: Option<seq<Album>>)
    ensures r.Some? <==> listed.Some?
    ensures r.Some? ==> |r.value| == |listed.value| + 1
    ensures r.Some? ==> r.value[0].id == UserPhotosAlbumId && r.value[0].size == userPhotos
    ensures r.Some? ==> forall i :: 0 <= i < |listed.value| ==> r.value[i + 1] == listed.value[i]
  {
    match listed
    case None => None
    case Some(albums) => Some([UserPhotosAlbum(userPhotos)] + albums)
  }

  // ----- checklist labels -----

  /** The marker that precedes the id in a label. */
  const IdTag: string := "[ID:"

  /** `'%-45s %5d [ID:%d]' % (title, size, id)`. */
  function Label(a: Album): string {
    Text.PadRight(a.title, 45) + " " + Text.PadLeft(Text.IntToString(a.size), 5) + " " + IdTag +
      Text.IntToString(a.id) + "]"
  }

  /** What stands between the title and the id tag: padding, the size and two blanks. */
  function Filler(a: Album): string {
    Text.Spaces(45 - |a.title|) + " " + Text.PadLeft(Text.IntToString(a.size), 5) + " "
  }

  predicate IsFillerChar(c: char) {
    c == ' ' || Text.IsDigit(c) || c == '-'
  }

  /** What follows the filler: the tag, the id and `]`. */
  function TagAndId(a: Album): string {
    IdTag + Text.IntToString(a.id) + "]"
  }

  /** A label is the title, the filler, then the tag and the id. */
  lemma LabelSplit(a: Album)
    ensures Label(a) == a.title + Filler(a) + TagAndId(a)
  {
  }

  /** A label starts with the album title, ends with the id and `]`, and is at least 12
      characters longer than both together. */
  lemma LabelShape(a: Album)
    ensures var r := Label(a); var id := Text.IntToString(a.id);
      && |r| >= |a.title| + |id| + 12
      && r[..|a.title|] == a.title
      && r[|r| - |id| - 1..] == id + "]"
  {
    LabelSplit(a);
    var r := Label(a);
    var id := Text.IntToString(a.id);
    assert TagAndId(a) == IdTag + (id + "]");
    assert |Filler(a)| >= 7;
  }

  lemma FillerChars(a: Album)
    ensures forall j :: 0 <= j < |Filler(a)| ==> IsFillerChar(Filler(a)[j])
  {
    var p := Text.PadLeft(Text.IntToString(a.size), 5);
    assert forall j :: 0 <= j < |p| ==> IsFillerChar(p[j]);
  }

  /** The tag opens the tail, the id follows it, and no other `[` appears. */
  lemma TagAndIdLayout(a: Album)
    ensures var t := TagAndId(a);
      && |t| == |IdTag| + |Text.IntToString(a.id)| + 1
      && t[..|IdTag|] == IdTag
      && t[|IdTag|..|t| - 1] == Text.IntToString(a.id)
      && forall j :: 0 < j < |t| ==> t[j] != '['
  {
    var d := Text.IntToString(a.id);
    var t := TagAndId(a);
    forall j | 0 < j < |t|
      ensures t[j] != '['
    {
      if |IdTag| <= j < |t| - 1 {
        assert t[j] == d[j - |IdTag|];
      }
    }
  }

  /** In a label, `:` never stands in the filler, nor in the tag before its last character. */
  lemma NoColonBeforeTagEnd(a: Album, j: int)
    requires |a.title| <= j < |a.title| + |Filler(a)| + 3
    ensures Label(a)[j] != ':'
  {
    LabelSplit(a);
    var f := Filler(a);
    var q := |a.title| + |f|;
    if j < q {
      FillerChars(a);
      assert Label(a)[j] == f[j - |a.title|];
    } else {
      TagAndIdLayout(a);
      assert Label(a)[j] == TagAndId(a)[j - q];
    }
  }

  /** In a label, no `[` follows the start of the tag. */
  lemma NoBracketAfterTag(a: Album, j: int)
    requires |a.title| + |Filler(a)| < j < |Label(a)|
    ensures Label(a)[j] != '['
  {
    LabelSplit(a);
    TagAndIdLayout(a);
    assert Label(a)[j] == TagAndId(a)[j - |a.title| - |Filler(a)|];
  }

  /** The tag `Label` writes stands right after the filler. */
  lemma TagAfterFiller(a: Album)
    ensures Text.OccursAt(Label(a), IdTag, |a.title| + |Filler(a)|)
  {
    LabelSplit(a);
    TagAndIdLayout(a);
    var q := |a.title| + |Filler(a)|;
    assert Label(a)[q..q + |IdTag|] == TagAndId(a)[..|IdTag|];
  }

  /** Where the title has no tag starting at `i`, neither has the label. */
  lemma TitleOccurrence(a: Album, i: int)
    requires 0 <= i && i + |IdTag| <= |a.title|
    ensures Text.OccursAt(Label(a), IdTag, i) <==> Text.OccursAt(a.title, IdTag, i)
  {
    LabelSplit(a);
    assert Label(a)[i..i + |IdTag|] == a.title[i..i + |IdTag|];
  }

  /** A title without the tag: the first tag in the label is the one `Label` wrote. */
  lemma FirstTagIsTheId(a: Album)
    requires Text.Find(a.title, IdTag) == -1
    ensures Text.Find(Label(a), IdTag) == |a.title| + |Filler(a)|
  {
    var q := |a.title| + |Filler(a)|;
    forall i | 0 <= i < q
      ensures !Text.OccursAt(Label(a), IdTag, i)
    {
      if i + |IdTag| <= |a.title| {
        TitleOccurrence(a, i);
        assert !Text.OccursAt(a.title, IdTag, i);
      } else {
        NoColonBeforeTagEnd(a, i + 3);
        Text.OccursAtChars(Label(a), IdTag, i, 3);
      }
    }
    TagAfterFiller(a);
    Text.FindIsFirst(Label(a), IdTag, q);
  }

  /** Whatever the title, the last tag in the label is the one `Label` wrote. */
  lemma LastTagIsTheId(a: Album)
    ensures Text.RFind(Label(a), IdTag) == |a.title| + |Filler(a)|
  {
    var q := |a.title| + |Filler(a)|;
    forall i | q < i <= |Label(a)|
      ensures !Text.OccursAt(Label(a), IdTag, i)
    {
      if i < |Label(a)| {
        NoBracketAfterTag(a, i);
        Text.OccursAtChars(Label(a), IdTag, i, 0);
      }
    }
    TagAfterFiller(a);
    Text.RFindIsLast(Label(a), IdTag, q);
  }

  /** `int(label[label.find("[ID:") + 4:-1])`, as `run_app` reads an id back; `None` is the
      `ValueError` that ends the program. */
  function ParseLabelIdAsWritten(text: string): Option<int> {
    Text.ParseInt(Text.PySlice(text, Text.Find(text, IdTag) + |IdTag|, -1))
  }

  /** The same with `rfind`: the tag `Label` writes is always the last one. */
  function ParseLabelId(text: string): Option<int> {
    Text.ParseInt(Text.PySlice(text, Text.RFind(text, IdTag) + |IdTag|, -1))
  }

  /** Without any tag both parses agree: `find` and `rfind` give -1, so the slice starts
      at index 3 (`-1 + 4`) and drops the last character. */
  lemma ParseWithoutTag(text: string)
    requires Text.Find(text, IdTag) == -1
    ensures ParseLabelId(text) == ParseLabelIdAsWritten(text)
    ensures ParseLabelId(text) == Text.ParseInt(Text.PySlice(text, 3, -1))
  {
    assert Text.RFind(text, IdTag) == -1;
  }

  /** The digits after the tag at `q`, up to the closing `]`, are the id. */
  lemma SliceAfterTag(a: Album)
    ensures var s := Label(a);
      Text.PySlice(s, |a.title| + |Filler(a)| + |IdTag|, -1) == Text.IntToString(a.id)
  {
    LabelSplit(a);
    TagAndIdLayout(a);
    var s := Label(a);
    var q := |a.title| + |Filler(a)|;
    assert s[q + |IdTag|..|s| - 1] == TagAndId(a)[|IdTag|..|TagAndId(a)| - 1];
  }

  /** Whichever tag the parser settles on, the number printed after it is read back. */
  lemma IdAfterTag(text: string, k: int, n: int)
    requires Text.PySlice(text, k + |IdTag|, -1) == Text.IntToString(n)
    ensures Text.Find(text, IdTag) == k ==> ParseLabelIdAsWritten(text) == Some(n)
    ensures Text.RFind(text, IdTag) == k ==> ParseLabelId(text) == Some(n)
  {
    Text.IntToStringRoundTrip(n);
    ParseAtTag(text, k, Some(n));
  }

  /** The id is read back from a label whose title does not contain the tag. */
  lemma ParseAsWrittenRoundTrip(a: Album)
    requires Text.Find(a.title, IdTag) == -1
    ensures ParseLabelIdAsWritten(Label(a)) == Some(a.id)
  {
    FirstTagIsTheId(a);
    SliceAfterTag(a);
    IdAfterTag(Label(a), |a.title| + |Filler(a)|, a.id);
  }

  /** A title that contains the tag makes the as-written parse fail: the slice then starts
      inside the title and still holds the `[` of the real tag. */
  lemma ParseAsWrittenFailsOnTaggedTitle(a: Album)
    requires Text.Find(a.title, IdTag) != -1
    ensures ParseLabelIdAsWritten(Label(a)) == None
  {
    var k := Text.Find(a.title, IdTag);
    forall i | 0 <= i <= k
      ensures Text.OccursAt(Label(a), IdTag, i) <==> Text.OccursAt(a.title, IdTag, i)
    {
      TitleOccurrence(a, i);
    }
    Text.FindIsFirst(Label(a), IdTag, k);
    var j := SliceKeepsTag(a, k);
    var slice := Text.PySlice(Label(a), k + |IdTag|, -1);
    Text.ParseIntRejects(slice, j);
    ParseAtTag(Label(a), k, None);
  }

  /** Both parses read from the tag they locate. */
  lemma ParseAtTag(text: string, k: int, v: Option<int>)
    ensures Text.Find(text, IdTag) == k && Text.ParseInt(Text.PySlice(text, k + |IdTag|, -1)) == v ==>
              ParseLabelIdAsWritten(text) == v
    ensures Text.RFind(text, IdTag) == k && Text.ParseInt(Text.PySlice(text, k + |IdTag|, -1)) == v ==>
              ParseLabelId(text) == v
  {
  }

  /** Slicing from inside the title to the closing `]` keeps the `[` of the real tag. */
  lemma SliceKeepsTag(a: Album, k: int) returns (j: int)
    requires 0 <= k && k + |IdTag| <= |a.title|
    ensures var slice := Text.PySlice(Label(a), k + |IdTag|, -1);
      0 <= j < |slice| && slice[j] == '['
  {
    TagAfterFiller(a);
    var s := Label(a);
    var q := |a.title| + |Filler(a)|;
    LabelSplit(a);
    TagAndIdLayout(a);
    var slice := Text.PySlice(s, k + |IdTag|, -1);
    assert slice == s[k + |IdTag|..|s| - 1];
    j := q - k - |IdTag|;
    assert slice[j] == s[q] == s[q..q + |IdTag|][0];
  }

  /** A concrete album whose title is the tag itself: the program cannot read its id. */
  lemma TaggedTitleExample(a: Album)
    requires a.title == IdTag
    ensures ParseLabelIdAsWritten(Label(a)) == None
  {
    assert Text.OccursAt(a.title, IdTag, 0);
    ParseAsWrittenFailsOnTaggedTitle(a);
  }

  /** The corrected parse reads back every album's id, whatever its title. */
  lemma ParseRoundTrip(a: Album)
    ensures ParseLabelId(Label(a)) == Some(a.id)
  {
    LastTagIsTheId(a);
    SliceAfterTag(a);
    IdAfterTag(Label(a), |a.title| + |Filler(a)|, a.id);
  }

  // ----- from chosen labels to albums -----

  /** `[int(...) for title in selected_albums_titles]` with the label parse `parse`, or
      `None` (the `ValueError`) at the first label that does not parse. */
  function ParseAll(parse: string -> Option<int>, labels: seq<string>): (r: Option<seq<int>>)
    ensures r.Some? <==> forall k :: 0 <= k < |labels| ==> parse(labels[k]).Some?
    ensures r.Some? ==> |r.value| == |labels|
    ensures r.Some? ==> forall k :: 0 <= k < |labels| ==> r.value[k] == parse(labels[k]).value
  {
    AllSome(Map(parse, labels))
  }

  /** Whether an album's id is among `ids`. */
  function HasIdIn(ids: seq<int>): Album -> bool {
    (a: Album) => a.id in ids
  }

  /** `[album for album in albums if album['id'] in selected_albums_ids]`. */
  function SelectAlbums(albums: seq<Album>, ids: seq<int>): (r: seq<Album>)
    ensures IsSubsequence(r, albums)
    ensures forall k :: 0 <= k < |r| ==> r[k].id in ids
    ensures forall i :: 0 <= i < |albums| && albums[i].id in ids ==> albums[i] in r
    ensures |r| == multiset(Map(HasIdIn(ids), albums))[true]
  {
    FilterIsSubsequence(HasIdIn(ids), albums);
    FilterMembers(HasIdIn(ids), albums);
    FilterLength(HasIdIn(ids), albums);
    Filter(HasIdIn(ids), albums)
  }

  /** What `run_app` does once the picker returns. */
  datatype Plan = NothingToExport | BadLabel | Export(albums: seq<Album>)

  /** `if not selected_albums_titles: return`, then the id parse with `parse` and the
      filter. */
  function Choose(parse: string -> Option<int>, albums: seq<Album>, selection: Picker.Selection)
    : (r: Plan)
    ensures r.NothingToExport? <==> selection.Cancelled? || selection.labels == []
    ensures r.BadLabel? <==> (selection.Chosen? && selection.labels != [] &&
              exists k :: 0 <= k < |selection.labels| && parse(selection.labels[k]).None?)
    ensures r.Export? ==> IsSubsequence(r.albums, albums)
    ensures r.Export? ==> forall k :: 0 <= k < |r.albums| ==>
              exists j :: 0 <= j < |selection.labels| &&
                          parse(selection.labels[j]) == Some(r.albums[k].id)
    ensures r.Export? ==> forall i, j ::
              (0 <= i < |albums| && 0 <= j < |selection.labels| &&
               parse(selection.labels[j]) == Some(albums[i].id)) ==> albums[i] in r.albums
    ensures r.Export? ==> (selection.Chosen? && ParseAll(parse, selection.labels).Some? &&
              |r.albums| == multiset(Map(HasIdIn(ParseAll(parse, selection.labels).value), albums))[true])
  {
    match selection
    case Cancelled => NothingToExport
    case Chosen(labels) =>
      if labels == [] then NothingToExport
      else match ParseAll(parse, labels)
        case None => BadLabel
        case Some(ids) =>
          var r := SelectAlbums(albums, ids);
          assert forall k :: 0 <= k < |r| ==> exists j :: 0 <= j < |ids| && ids[j] == r[k].id;
          Export(r)
  }

  /** The program as written: the id is read after the first tag. */
  function ChooseAlbumsAsWritten(albums: seq<Album>, selection: Picker.Selection): Plan {
    Choose(ParseLabelIdAsWritten, albums, selection)
  }

  /** The corrected program: the id is read after the last tag. */
  function ChooseAlbums(albums: seq<Album>, selection: Picker.Selection): Plan {
    Choose(ParseLabelId, albums, selection)
  }

  /** Whenever `parse` reads every chosen album's id back from its label, a non-empty choice
      is exported and holds exactly the catalog albums that share an id with a chosen one. */
  lemma ChoiceIsExported(parse: string -> Option<int>, albums: seq<Album>, chosen: seq<Album>)
    requires chosen != []
    requires forall k :: 0 <= k < |chosen| ==> parse(Label(chosen[k])) == Some(chosen[k].id)
    ensures var r := Choose(parse, albums, Picker.Chosen(Map(Label, chosen)));
      && r.Export?
      && (forall i :: 0 <= i < |albums| ==>
            (albums[i] in r.albums <==> exists k :: 0 <= k < |chosen| && chosen[k].id == albums[i].id))
  {
    var labels := Map(Label, chosen);
    assert forall k :: 0 <= k < |labels| ==> parse(labels[k]) == Some(chosen[k].id);
    var ids := ParseAll(parse, labels).value;
    assert forall k :: 0 <= k < |chosen| ==> ids[k] == chosen[k].id;
    assert Choose(parse, albums, Picker.Chosen(labels)) == Export(SelectAlbums(albums, ids));
    SelectedIds(albums, chosen, ids);
  }

  /** With the ids read back in order, the filter keeps an album exactly when a chosen
      album has its id. */
  lemma SelectedIds(albums: seq<Album>, chosen: seq<Album>, ids: seq<int>)
    requires |ids| == |chosen|
    requires forall k :: 0 <= k < |chosen| ==> ids[k] == chosen[k].id
    ensures forall i :: 0 <= i < |albums| ==>
      (albums[i] in SelectAlbums(albums, ids) <==>
       exists k :: 0 <= k < |chosen| && chosen[k].id == albums[i].id)
  {
    var r := SelectAlbums(albums, ids);
    forall i | 0 <= i < |albums|
      ensures albums[i] in r <==> exists k :: 0 <= k < |chosen| && chosen[k].id == albums[i].id
    {
      if albums[i] in r {
        var m :| 0 <= m < |r| && r[m] == albums[i];
        var k :| 0 <= k < |ids| && ids[k] == albums[i].id;
        assert chosen[k].id == albums[i].id;
      }
      if exists k :: 0 <= k < |chosen| && chosen[k].id == albums[i].id {
        var k :| 0 <= k < |chosen| && chosen[k].id == albums[i].id;
        assert ids[k] == albums[i].id;
      }
    }
  }

  /** With the corrected parse, a non-empty choice of labels the picker showed is always
      exported, and holds exactly the albums sharing an id with a ticked one. */
  lemma ChosenLabelsAreExported(albums: seq<Album>, chosen: seq<Album>)
    requires chosen != []
    ensures var r := ChooseAlbums(albums, Picker.Chosen(Map(Label, chosen)));
      && r.Export?
      && (forall i :: 0 <= i < |albums| ==>
            (albums[i] in r.albums <==> exists k :: 0 <= k < |chosen| && chosen[k].id == albums[i].id))
  {
    forall k | 0 <= k < |chosen|
      ensures ParseLabelId(Label(chosen[k])) == Some(chosen[k].id)
    {
      ParseRoundTrip(chosen[k]);
    }
    ChoiceIsExported(ParseLabelId, albums, chosen);
  }

  /** As written, the same holds only while no chosen title contains the tag. */
  lemma ChosenLabelsAreExportedAsWritten(albums: seq<Album>, chosen: seq<Album>)
    requires chosen != []
    requires forall k :: 0 <= k < |chosen| ==> Text.Find(chosen[k].title, IdTag) == -1
    ensures var r := ChooseAlbumsAsWritten(albums, Picker.Chosen(Map(Label, chosen)));
      && r.Export?
      && (forall i :: 0 <= i < |albums| ==>
            (albums[i] in r.albums <==> exists k :: 0 <= k < |chosen| && chosen[k].id == albums[i].id))
  {
    forall k | 0 <= k < |chosen|
      ensures ParseLabelIdAsWritten(Label(chosen[k])) == Some(chosen[k].id)
    {
      ParseAsWrittenRoundTrip(chosen[k]);
    }
    ChoiceIsExported(ParseLabelIdAsWritten, albums, chosen);
  }

  /** As written, ticking one album whose title contains the tag stops the whole export
      with the `ValueError`, whatever else was ticked. */
  lemma TaggedChoiceStops(albums: seq<Album>, chosen: seq<Album>, k: nat)
    requires k < |chosen| && Text.Find(chosen[k].title, IdTag) != -1
    ensures ChooseAlbumsAsWritten(albums, Picker.Chosen(Map(Label, chosen))).BadLabel?
  {
    ParseAsWrittenFailsOnTaggedTitle(chosen[k]);
    assert Map(Label, chosen)[k] == Label(chosen[k]);
  }

  // ----- pages -----

  /** The offsets `process_albums` passes to `get_album_photos`: 0, 1000, ... while the
      offset does not exceed the album size. */
  function PageOffsets(size: int): (r: seq<int>)
    ensures size < 0 ==> r == []
    ensures size >= 0 ==> |r| == size / PageSize + 1
  {
    if size < 0 then [] else seq(size / PageSize + 1, i => i * PageSize)
  }

  /** The loop of `process_albums` for one album. */
  method AlbumOffsets(size: int) returns (offsets: seq<int>)
    ensures offsets == PageOffsets(size)
  {
    offsets := [];
    var offset := 0;
    while offset <= size
      invariant offset >= 0 && offset % PageSize == 0
      invariant size >= 0 ==> offset <= size / PageSize * PageSize + PageSize
      invariant size < 0 ==> offset == 0
      invariant |offsets| == offset / PageSize
      invariant forall i :: 0 <= i < |offsets| ==> offsets[i] == i * PageSize
      decreases size - offset
    {
      offsets := offsets + [offset];
      offset := offset + PageSize;
    }
  }

  /** The offsets start at 0, step by the page size, never pass the album size, and the
      last page reaches past the last photo. */
  lemma PageOffsetsCover(size: int)
    requires size >= 0
    ensures var r := PageOffsets(size);
      && r[0] == 0
      && (forall i :: 0 <= i < |r| - 1 ==> r[i + 1] == r[i] + PageSize)
      && (forall i :: 0 <= i < |r| ==> 0 <= r[i] <= size)
      && size < r[|r| - 1] + PageSize
  {
  }

  /** Every photo position of the album falls in exactly one requested page. */
  lemma EveryPhotoHasOnePage(size: int, p: int)
    requires 0 <= p < size
    ensures var r := PageOffsets(size);
      exists i :: 0 <= i < |r| && r[i] <= p < r[i] + PageSize
    ensures var r := PageOffsets(size);
      forall i, j :: (0 <= i < |r| && 0 <= j < |r| && r[i] <= p < r[i] + PageSize &&
                      r[j] <= p < r[j] + PageSize) ==> i == j
  {
    var r := PageOffsets(size);
    var i := p / PageSize;
    assert r[i] <= p < r[i] + PageSize;
  }

  /** Whether the photo at position `p` is in one of the replies, when each request for
      `size` photos returns up to `perReply` of them from its offset. */
  predicate Fetched(size: int, perReply: int, p: int) {
    exists i :: 0 <= i < |PageOffsets(size)| &&
      PageOffsets(size)[i] <= p < PageOffsets(size)[i] + perReply
  }

  /** The most photos one request of `get_album_photos` asks for: `photos.getUserPhotos`
      is sent `count` 1000, `photos.get` no `count`, so it gets the service's default
      `defaultCount`. */
  function ReplySizeAsWritten(a: Album, defaultCount: nat): nat {
    if a.id == UserPhotosAlbumId then PageSize else defaultCount
  }

  /** As written, an ordinary album larger than the service's default reply, when that
      default is below the 1000-photo step, loses the photo right after the first reply:
      the next request already starts at 1000. */
  lemma OrdinaryAlbumSkipsPhotos(a: Album, defaultCount: nat)
    requires a.id != UserPhotosAlbumId
    requires defaultCount < PageSize && defaultCount < a.size
    ensures !Fetched(a.size, ReplySizeAsWritten(a, defaultCount), defaultCount)
  {
    var r := PageOffsets(a.size);
    forall i | 0 <= i < |r|
      ensures !(r[i] <= defaultCount < r[i] + defaultCount)
    {
      assert r[i] == i * PageSize;
      if i > 0 {
        assert r[i] >= PageSize;
      }
    }
  }

  /** With `count` 1000 sent on both requests, every photo of the album is fetched. */
  lemma EveryPhotoFetched(a: Album)
    ensures forall p :: 0 <= p < a.size ==> Fetched(a.size, PageSize, p)
  {
    forall p | 0 <= p < a.size
      ensures Fetched(a.size, PageSize, p)
    {
      EveryPhotoHasOnePage(a.size, p);
    }
  }

  /** When the size is a multiple of the page size, the last request starts at the size,
      past the last photo: 1000 photos take two requests. */
  lemma ExactMultipleAsksOneExtraPage(size: int)
    requires size >= 0 && size % PageSize == 0
    ensures |PageOffsets(size)| == size / PageSize + 1
    ensures PageOffsets(size)[|PageOffsets(size)| - 1] == size
  {
  }

  /** An album of 1500 photos is fetched from offsets 0 and 1000; one of 1000 photos too. */
  lemma PageOffsetsExamples()
    ensures PageOffsets(1500) == [0, 1000]
    ensures PageOffsets(1000) == [0, 1000]
  {
    assert |PageOffsets(1500)| == 2 && |PageOffsets(1000)| == 2;
  }

  /** The folder each album is saved into: `escape_path(album['title'])`. */
  function AlbumFolder(a: Album): (r: string)
    ensures '/' !in r && |r| == |a.title|
  {
    Photos.EscapePath(a.title)
  }
}
