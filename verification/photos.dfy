/** The pure part of fetching and naming photos (spelt/__init__.py): the caption sanitiser
    `normpath`, `escape_path`, the choice of the largest size variant, turning one page of
    the photo listing into photo records, and the target file name `download_photo` writes. */
module Photos {
  import opened Common
  import Text

  // ----- captions -----

  /** The characters `normpath` keeps: alphanumerics and `keepcharacters`. */
  predicate KeepChar(c: char) {
    Text.IsAlnum(c) || c == ' ' || c == '.' || c == '_' || c == ','
  }

  /** `normpath`: drop every character outside `KeepChar`, then strip trailing whitespace. */
  function NormPath(filename: string): (r: string)
    ensures IsSubsequence(r, filename)
    ensures forall i :: 0 <= i < |r| ==> KeepChar(r[i])
    ensures r == [] || !Text.IsSpace(r[|r| - 1])
    ensures var k := Filter(KeepChar, filename);
      && |r| <= |k| && r == k[..|r|]
      && forall i :: |r| <= i < |k| ==> Text.IsSpace(k[i])
  {
    var kept := Filter(KeepChar, filename);
    FilterIsSubsequence(KeepChar, filename);
    PrefixIsSubsequence(kept, filename, |Text.RStrip(kept)|);
    Text.RStrip(kept)
  }

  /** Sanitising a sanitised caption changes nothing. */
  lemma NormPathIdempotent(s: string)
    ensures NormPath(NormPath(s)) == NormPath(s)
  {
    var r := NormPath(s);
    FilterKeepsAll(KeepChar, r);
  }

  /** Only unwanted characters and trailing spaces are lost: every kept character that is
      not whitespace survives, at the position given by the kept characters before it. */
  lemma NormPathKeepsVisible(s: string, i: int)
    requires 0 <= i < |s| && KeepChar(s[i]) && !Text.IsSpace(s[i])
    ensures var j := |Filter(KeepChar, s[..i])|;
      j < |NormPath(s)| && NormPath(s)[j] == s[i]
  {
    var kept := Filter(KeepChar, s);
    var j := |Filter(KeepChar, s[..i])|;
    assert s == s[..i] + s[i..];
    FilterAppend(KeepChar, s[..i], s[i..]);
    assert Filter(KeepChar, s[i..])[0] == s[i];
    assert kept[j] == s[i];
    var r := Text.RStrip(kept);
    assert j < |r|;
  }

  /** A caption made of two alphanumeric words around a dropped character, followed by
      another dropped character, loses exactly those two characters. */
  lemma NormPathDropsTwo(a: string, c: char, b: string, d: char)
    requires forall i :: 0 <= i < |a| ==> Text.IsAlnum(a[i])
    requires forall i :: 0 <= i < |b| ==> Text.IsAlnum(b[i])
    requires b != [] && !KeepChar(c) && !KeepChar(d)
    ensures NormPath(a + [c] + b + [d]) == a + b
  {
    var ac := a + [c];
    FilterSnoc(KeepChar, ac + b, d);
    assert Filter(KeepChar, ac + b + [d]) == Filter(KeepChar, ac + b);
    FilterAppend(KeepChar, ac, b);
    FilterSnoc(KeepChar, a, c);
    assert Filter(KeepChar, ac) == Filter(KeepChar, a);
    FilterKeepsAll(KeepChar, a);
    FilterKeepsAll(KeepChar, b);
    Text.AlnumIsNotSpace(b[|b| - 1]);
    assert (a + b)[|a + b| - 1] == b[|b| - 1];
  }

  /** The caption of the example photo, "Vacation/2019!", becomes "Vacation2019". */
  lemma NormPathExample()
    ensures NormPath("Vacation/2019!") == "Vacation2019"
  {
    var a, b := "Vacation", "2019";
    assert a + "/" + b + "!" == "Vacation/2019!";
    assert a + b == "Vacation2019";
    assert forall i :: 0 <= i < |a| ==> Text.IsAlnum(a[i]);
    assert forall i :: 0 <= i < |b| ==> Text.IsAlnum(b[i]);
    assert !KeepChar('/') && !KeepChar('!');
    NormPathDropsTwo(a, '/', b, '!');
  }

  // ----- paths -----

  /** `escape_path`: every `/` becomes `_`; an empty path comes back as it is. */
  function EscapePath(path: string): (r: string)
    ensures |r| == |path|
    ensures '/' !in r
    ensures forall i :: 0 <= i < |path| ==> r[i] == (if path[i] == '/' then '_' else path[i])
  {
    if path != [] then Text.ReplaceChar(path, '/', '_') else path
  }

  lemma EscapePathAppend(a: string, b: string)
    ensures EscapePath(a + b) == EscapePath(a) + EscapePath(b)
  {
  }

  /** A path without `/` is left alone, so escaping twice is escaping once. */
  lemma EscapePathIdempotent(path: string)
    ensures '/' !in path ==> EscapePath(path) == path
    ensures EscapePath(EscapePath(path)) == EscapePath(path)
  {
  }

  /** `os.path.splitext` on a POSIX path: the extension is the part from the last `.` of
      the last path component, unless that component is only dots before it. */
  function SplitExt(p: string): (r: (string, string))
    ensures r.0 + r.1 == p
    ensures r.1 == [] || (r.1[0] == '.' && '.' !in r.1[1..] && '/' !in r.1)
    ensures var sep := Text.RFind(p, "/");
      r.1 != [] <==> exists k, i :: sep < k < i < |p| && p[k] != '.' && p[i] == '.'
    ensures var sep := Text.RFind(p, "/");
      r.1 != [] ==> exists k :: sep < k < |r.0| && r.0[k] != '.'
  {
    var sepIndex := Text.RFind(p, "/");
    var dotIndex := Text.RFind(p, ".");
    if dotIndex > sepIndex && exists k :: sepIndex + 1 <= k < dotIndex && p[k] != '.' then
      assert p[..dotIndex] + p[dotIndex..] == p;
      Text.OccursAtChar(p, '.', dotIndex);
      assert forall j :: dotIndex < j < |p| ==> p[j] != '.' && p[j] != '/' by {
        forall j | dotIndex < j < |p|
          ensures p[j] != '.' && p[j] != '/'
        {
          Text.OccursAtChar(p, '.', j);
          Text.OccursAtChar(p, '/', j);
        }
      }
      (p[..dotIndex], p[dotIndex..])
    else
      NoExtension(p);
      (p, [])
  }

  /** A photo URL ending in `b.jpg` gives the extension `.jpg`. */
  lemma JpgExtension()
    ensures SplitExt("http://vk.com/a/b.jpg").1 == ".jpg"
  {
    var p := "http://vk.com/a/b.jpg";
    Text.OccursAtChar(p, '/', 15);
    Text.OccursAtChar(p, '.', 17);
    forall j | 15 < j <= |p|
      ensures !Text.OccursAt(p, "/", j)
    {
      Text.OccursAtChar(p, '/', j);
    }
    forall j | 17 < j <= |p|
      ensures !Text.OccursAt(p, ".", j)
    {
      Text.OccursAtChar(p, '.', j);
    }
    Text.RFindIsLast(p, "/", 15);
    Text.RFindIsLast(p, ".", 17);
    assert p[16] != '.';
    assert p[17..] == ".jpg";
  }

  /** A `.` after a non-dot character of the last component lies at or before the last
      `.`, so `splitext` finds an extension. */
  lemma NoExtension(p: string)
    ensures var sep := Text.RFind(p, "/");
      var dot := Text.RFind(p, ".");
      (exists k, i :: sep < k < i < |p| && p[k] != '.' && p[i] == '.') ==>
        dot > sep && exists k :: sep + 1 <= k < dot && p[k] != '.'
  {
    var sep := Text.RFind(p, "/");
    var dot := Text.RFind(p, ".");
    if exists k, i :: sep < k < i < |p| && p[k] != '.' && p[i] == '.' {
      var k, i :| sep < k < i < |p| && p[k] != '.' && p[i] == '.';
      Text.OccursAtChar(p, '.', i);
      assert dot >= i;
    }
  }

  // ----- size variants -----

  /** One entry of an item's `sizes`: its `type` tag and its `url`. */
  datatype Size = Size(kind: string, url: string)

  /** `image_types`, lowest quality first. */
  const SizeTypes: seq<string> := ["s", "m", "x", "o", "p", "q", "r", "y", "z", "w"]

  function IndexFrom(kinds: seq<string>, kind: string, from: nat): (r: Option<nat>)
    ensures r.Some? ==> from <= r.value < |kinds| && kinds[r.value] == kind
    ensures r.None? ==> forall i :: from <= i < |kinds| ==> kinds[i] != kind
    decreases |kinds| - from
  {
    if from >= |kinds| then None
    else if kinds[from] == kind then Some(from)
    else IndexFrom(kinds, kind, from + 1)
  }

  /** `image_types.get(kind)`. */
  function Rank(kind: string): (r: Option<nat>)
    ensures r.Some? <==> kind in SizeTypes
    ensures r.Some? ==> r.value < |SizeTypes| && SizeTypes[r.value] == kind
  {
    IndexFrom(SizeTypes, kind, 0)
  }

  /** The sort key of a size; an unknown tag's `None` sorts below every rank (Python 2). */
  function SortKey(s: Size): (r: int)
    ensures r == -1 <==> s.kind !in SizeTypes
    ensures r != -1 ==> 0 <= r < |SizeTypes| && SizeTypes[r] == s.kind
  {
    match Rank(s.kind)
    case None => -1
    case Some(k) => k
  }

  /** `sorted(sizes, key=..., reverse=True)[0]`: since the sort is stable, the first of
      the sizes with the largest key. */
  function BestSize(sizes: seq<Size>): (k: nat)
    requires sizes != []
    ensures k < |sizes|
    ensures forall j :: 0 <= j < |sizes| ==> SortKey(sizes[j]) <= SortKey(sizes[k])
    ensures forall j :: 0 <= j < k ==> SortKey(sizes[j]) < SortKey(sizes[k])
  {
    FirstMax(Map(SortKey, sizes))
  }

  /** When any tag is known, the chosen size carries the highest known rank. */
  lemma BestSizeIsLargestKnown(sizes: seq<Size>)
    requires exists j :: 0 <= j < |sizes| && sizes[j].kind in SizeTypes
    ensures sizes[BestSize(sizes)].kind in SizeTypes
    ensures forall j :: 0 <= j < |sizes| && sizes[j].kind in SizeTypes ==>
              Rank(sizes[j].kind).value <= Rank(sizes[BestSize(sizes)].kind).value
  {
    var j :| 0 <= j < |sizes| && sizes[j].kind in SizeTypes;
    assert SortKey(sizes[j]) >= 0;
  }

  /** `w` is preferred to every other tag. */
  lemma LargestTagWins(sizes: seq<Size>, j: int)
    requires 0 <= j < |sizes| && sizes[j].kind == "w"
    ensures sizes[BestSize(sizes)].kind == "w"
  {
    assert SizeTypes[9] == "w";
    assert Rank("w") == Some(9);
  }

  // ----- listing items and photo records -----

  /** One element of the listing's `items`; `text` is absent or a caption. */
  datatype Item = Item(id: int, date: int, sizes: seq<Size>, text: Option<string>)

  /** The listing reply: the request failed, or a JSON object that may lack `items`. */
  datatype Listing = RequestError | Listing(items: Option<seq<Item>>)

  /** The `image` dictionary; `date` stays the raw timestamp. */
  datatype Photo = Photo(id: int, date: int, url: string, title: Option<string>)

  predicate HasSizes(item: Item) {
    item.sizes != []
  }

  /** The record built for an item with at least one size. */
  function ToPhoto(item: Item): (r: Photo)
    requires HasSizes(item)
    ensures r.id == item.id && r.date == item.date
    ensures exists k :: 0 <= k < |item.sizes| && r.url == item.sizes[k].url &&
              forall j :: 0 <= j < |item.sizes| ==> SortKey(item.sizes[j]) <= SortKey(item.sizes[k])
    ensures r.title.Some? <==> item.text.Some? && item.text.value != []
    ensures r.title.Some? ==> r.title.value == NormPath(item.text.value)
  {
    var k := BestSize(item.sizes);
    Photo(item.id, item.date, item.sizes[k].url,
          if item.text.Some? && item.text.value != [] then Some(NormPath(item.text.value)) else None)
  }

  /** The loop of `get_album_photos` over the items of one page: items without sizes
      are skipped, the others become photo records in listing order. */
  method PagePhotos(items: seq<Item>) returns (photos: seq<Photo>)
    ensures var kept := Filter(HasSizes, items);
            |photos| == |kept| && forall j :: 0 <= j < |kept| ==> photos[j] == ToPhoto(kept[j])
  {
    photos := [];
    ghost var kept: seq<Item> := [];
    for i := 0 to |items|
      invariant kept == Filter(HasSizes, items[..i])
      invariant |photos| == |kept|
      invariant forall j :: 0 <= j < |kept| ==> photos[j] == ToPhoto(kept[j])
    {
      assert items[..i + 1] == items[..i] + [items[i]];
      FilterSnoc(HasSizes, items[..i], items[i]);
      if items[i].sizes != [] {
        ConvertedSnoc(photos, kept, items[i]);
        photos := photos + [ToPhoto(items[i])];
        kept := kept + [items[i]];
      }
    }
    assert items[..|items|] == items;
  }

  /** Appending one converted item keeps the photos in step with the kept items. */
  lemma ConvertedSnoc(photos: seq<Photo>, kept: seq<Item>, x: Item)
    requires HasSizes(x) && forall j :: 0 <= j < |kept| ==> HasSizes(kept[j])
    requires |photos| == |kept| && forall j :: 0 <= j < |kept| ==> photos[j] == ToPhoto(kept[j])
    ensures var p, k := photos + [ToPhoto(x)], kept + [x];
            |p| == |k| && forall j :: 0 <= j < |k| ==> p[j] == ToPhoto(k[j])
  {
  }

  /** One page of `get_album_photos`: a failed request or a reply without `items` gives
      no photos. */
  method AlbumPhotos(listing: Listing) returns (photos: seq<Photo>)
    ensures listing.RequestError? || listing.items.None? ==> photos == []
    ensures listing.Listing? && listing.items.Some? ==>
              var kept := Filter(HasSizes, listing.items.value);
              |photos| == |kept| && forall j :: 0 <= j < |kept| ==> photos[j] == ToPhoto(kept[j])
  {
    if listing.RequestError? || listing.items.None? {
      return [];
    }
    photos := PagePhotos(listing.items.value);
  }

  // ----- target file name -----

  /** The name `download_photo` tries first: the id, then `_` and the title if non-empty. */
  function FullBaseName(photo: Photo): (r: string)
    ensures var id := Text.IntToString(photo.id);
      && |id| <= |r| && r[..|id|] == id
      && (|r| == |id| <==> photo.title.None? || photo.title.value == [])
      && (|r| > |id| ==> r[|id|] == '_' && r[|id| + 1..] == photo.title.value)
  {
    Text.IntToString(photo.id) +
      (if photo.title.Some? && photo.title.value != [] then "_" + photo.title.value else "")
  }

  /** `basename` after the length check; `tooLong` stands for `sys.getsizeof(b) > 245`. */
  function BaseName(photo: Photo, tooLong: string -> bool): (r: string)
    ensures r == FullBaseName(photo) || r == Text.IntToString(photo.id)
    ensures tooLong(r) ==> r == Text.IntToString(photo.id)
  {
    if tooLong(FullBaseName(photo)) then Text.IntToString(photo.id) else FullBaseName(photo)
  }

  /** `escape_path(basename + splitext(url)[1])`. */
  function TargetFilename(photo: Photo, tooLong: string -> bool): (r: string)
    ensures '/' !in r
  {
    EscapePath(BaseName(photo, tooLong) + SplitExt(photo.url).1)
  }

  predicate IsIdChar(c: char) {
    Text.IsDigit(c) || c == '-'
  }

  /** The longest prefix made of digits and `-`. */
  function LeadingNumber(s: string): (r: string)
    ensures |r| <= |s|
  {
    if s != [] && IsIdChar(s[0]) then [s[0]] + LeadingNumber(s[1..]) else []
  }

  lemma {:induction false} LeadingNumberAppend(a: string, b: string)
    requires forall i :: 0 <= i < |a| ==> IsIdChar(a[i])
    requires b == [] || !IsIdChar(b[0])
    ensures LeadingNumber(a + b) == a
    decreases |a|
  {
    if a == [] {
      assert a + b == b;
    } else {
      LeadingNumberAppend(a[1..], b);
      assert (a + b)[1..] == a[1..] + b;
    }
  }

  /** What follows the id in the file name before escaping: `_` and the title unless the
      name was too long, then the extension. */
  function AfterId(photo: Photo, tooLong: string -> bool): (r: string)
    ensures r == [] || r[0] == '_' || r[0] == '.'
  {
    var title := if photo.title.Some? && photo.title.value != [] then "_" + photo.title.value else "";
    (if tooLong(FullBaseName(photo)) then "" else title) + SplitExt(photo.url).1
  }

  /** Before escaping, the name is the id followed by what `AfterId` describes. */
  lemma BaseNameSplit(photo: Photo, tooLong: string -> bool)
    ensures BaseName(photo, tooLong) + SplitExt(photo.url).1
            == Text.IntToString(photo.id) + AfterId(photo, tooLong)
  {
    var id := Text.IntToString(photo.id);
    var title := if photo.title.Some? && photo.title.value != [] then "_" + photo.title.value else "";
    assert FullBaseName(photo) == id + title;
    JoinParts(id, title, SplitExt(photo.url).1, tooLong(FullBaseName(photo)));
  }

  lemma JoinParts(id: string, title: string, ext: string, long: bool)
    ensures (if long then id else id + title) + ext == id + ((if long then "" else title) + ext)
  {
    if long {
      assert "" + ext == ext;
    } else {
      assert (id + title) + ext == id + (title + ext);
    }
  }

  /** The file name is the id followed by the escaped rest. */
  lemma FilenameSplitsAtId(photo: Photo, tooLong: string -> bool)
    ensures TargetFilename(photo, tooLong)
            == Text.IntToString(photo.id) + EscapePath(AfterId(photo, tooLong))
  {
    var id := Text.IntToString(photo.id);
    BaseNameSplit(photo, tooLong);
    EscapePathAppend(id, AfterId(photo, tooLong));
    assert '/' !in id;
    EscapePathIdempotent(id);
  }

  /** The photo id can be read back from the start of the file name. */
  lemma FilenameStartsWithId(photo: Photo, tooLong: string -> bool)
    ensures Text.ParseInt(LeadingNumber(TargetFilename(photo, tooLong))) == Some(photo.id)
  {
    FilenameSplitsAtId(photo, tooLong);
    var e := EscapePath(AfterId(photo, tooLong));
    assert e == [] || e[0] == '_' || e[0] == '.';
    LeadingNumberAppend(Text.IntToString(photo.id), e);
    Text.IntToStringRoundTrip(photo.id);
  }

  /** Photos with different ids never share a file name, whatever their titles. */
  lemma DistinctIdsDistinctFiles(p: Photo, q: Photo, tooLong: string -> bool)
    requires p.id != q.id
    ensures TargetFilename(p, tooLong) != TargetFilename(q, tooLong)
  {
    FilenameStartsWithId(p, tooLong);
    FilenameStartsWithId(q, tooLong);
  }

  /** An over-long name falls back to the id and the extension. */
  lemma TooLongFallsBackToId(photo: Photo, tooLong: string -> bool)
    requires tooLong(FullBaseName(photo))
    ensures TargetFilename(photo, tooLong) == Text.IntToString(photo.id) + SplitExt(photo.url).1
  {
    EscapePathAppend(Text.IntToString(photo.id), SplitExt(photo.url).1);
  }

  /** A captioned photo whose name is short enough is saved as the id, `_`, the sanitised
      caption and the URL's extension; nothing in it needs escaping. */
  lemma CaptionedFilename(item: Item, tooLong: string -> bool)
    requires HasSizes(item) && item.text.Some? && NormPath(item.text.value) != []
    requires !tooLong(Text.IntToString(item.id) + "_" + NormPath(item.text.value))
    ensures TargetFilename(ToPhoto(item), tooLong)
            == Text.IntToString(item.id) + "_" + NormPath(item.text.value) + SplitExt(ToPhoto(item).url).1
  {
    var photo := ToPhoto(item);
    var name := Text.IntToString(item.id) + "_" + NormPath(item.text.value) + SplitExt(photo.url).1;
    assert FullBaseName(photo) == Text.IntToString(item.id) + "_" + NormPath(item.text.value);
    assert FullBaseName(photo) + SplitExt(photo.url).1 == name;
    NoSlashInName(Text.IntToString(item.id), NormPath(item.text.value), SplitExt(photo.url).1);
    EscapePathIdempotent(name);
  }

  lemma NoSlashInName(id: string, title: string, ext: string)
    requires '/' !in id && '/' !in ext
    requires forall i :: 0 <= i < |title| ==> KeepChar(title[i])
    ensures '/' !in id + "_" + title + ext
  {
    assert '/' !in title;
  }

  /** Photo 42 captioned "Vacation/2019!" is saved under the base name `42_Vacation2019`,
      to which `CaptionedFilename` appends the URL's extension. */
  lemma ExampleBaseName()
    ensures Text.IntToString(42) + "_" + NormPath("Vacation/2019!") == "42_Vacation2019"
  {
    assert "42" + "_" + "Vacation2019" == "42_Vacation2019";
    assert Text.IntToString(42) == "42";
    NormPathExample();
  }
}
