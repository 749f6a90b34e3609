/** `getMediaList` (MainActivity.kt) and its data model: two media-store
    queries, images then videos, each turned row by row into `MediaItem`s
    tagged with the kind of the collection, and concatenated. */
module MediaStore {
  import opened Wrappers
  import opened Kotlin

  /** `enum class MediaType { IMAGE, VIDEO }`. */
  datatype MediaType = Image | Video

  /** One cursor row of the projection `_ID, DISPLAY_NAME, DATE_ADDED, DATA`,
      as `getLong`/`getString` return it: the two string columns may be
      `null`. */
  datatype Row = Row(id: Long, displayName: Option<string>, dateAdded: Long, data: Option<string>)

  /** `data class MediaItem(id, displayName, dateAdded, data, type)`. */
  datatype MediaItem = MediaItem(id: Long, displayName: string, dateAdded: Long, data: string, kind: MediaType)

  /** `MediaItem`'s constructor rejected a `null` string column: the
      collection it came from and the row's position in its cursor. */
  datatype MediaError = NullColumn(kind: MediaType, row: nat)

  /** A row `MediaItem` can be built from: neither string column is `null`. */
  predicate Complete(row: Row) {
    row.displayName.Some? && row.data.Some?
  }

  predicate AllComplete(rows: seq<Row>) {
    forall i :: 0 <= i < |rows| ==> Complete(rows[i])
  }

  /** `MediaItem(id, displayName, dateAdded, data, MediaType.X)` for one row. */
  function ToItem(row: Row, kind: MediaType): (item: MediaItem)
    requires Complete(row)
    ensures ToRow(item) == row
    ensures item.kind == kind
  {
    MediaItem(row.id, row.displayName.value, row.dateAdded, row.data.value, kind)
  }

  /** The columns an item was built from. */
  function ToRow(item: MediaItem): Row {
    Row(item.id, Some(item.displayName), item.dateAdded, Some(item.data))
  }

  /** An item is determined by its columns and its tag. */
  lemma ItemFromColumns(item: MediaItem)
    ensures Complete(ToRow(item))
    ensures ToItem(ToRow(item), item.kind) == item
  {
  }

  /** The rows a query contributes: none when it returned no cursor. */
  function Rows(cursor: Option<seq<Row>>): seq<Row> {
    match cursor
    case None => []
    case Some(rows) => rows
  }

  /** One `while (cursor.moveToNext())` loop: one item per row, in cursor
      order, all tagged `kind`; the first row with a `null` string column
      stops the loop with an error. */
  function ReadCursor(rows: seq<Row>, kind: MediaType): (r: Result<seq<MediaItem>, MediaError>)
    ensures r.Success? <==> AllComplete(rows)
    ensures r.Success? ==> |r.value| == |rows|
    ensures r.Success? ==> forall i :: 0 <= i < |rows| ==> r.value[i].kind == kind && ToRow(r.value[i]) == rows[i]
    ensures r.Failure? ==> r.error.kind == kind && r.error.row < |rows| && !Complete(rows[r.error.row])
    ensures r.Failure? ==> forall i :: 0 <= i < r.error.row ==> Complete(rows[i])
    decreases |rows|
  {
    if rows == [] then
      Success([])
    else
      var n := |rows| - 1;
      var prefix := rows[..n];
      assert forall i :: 0 <= i < n ==> prefix[i] == rows[i];
      match ReadCursor(prefix, kind)
      case Failure(e) => Failure(e)
      case Success(items) =>
        if Complete(rows[n]) then
          Success(items + [ToItem(rows[n], kind)])
        else
          Failure(NullColumn(kind, n))
  }

  /** `getMediaList()` with the two `contentResolver.query` results as
      inputs: the image items, then the video items. */
  function MediaList(images: Option<seq<Row>>, videos: Option<seq<Row>>): (r: Result<seq<MediaItem>, MediaError>)
    ensures r.Success? <==> AllComplete(Rows(images)) && AllComplete(Rows(videos))
    ensures r.Success? ==> |r.value| == |Rows(images)| + |Rows(videos)|
    ensures r.Success? ==> forall k :: 0 <= k < |r.value| ==>
              r.value[k].kind == (if k < |Rows(images)| then Image else Video)
    ensures r.Success? ==> forall k :: 0 <= k < |Rows(images)| ==> ToRow(r.value[k]) == Rows(images)[k]
    ensures r.Success? ==> forall k :: 0 <= k < |Rows(videos)| ==>
              ToRow(r.value[|Rows(images)| + k]) == Rows(videos)[k]
    ensures r.Failure? && r.error.kind == Image ==>
              r.error.row < |Rows(images)| && !Complete(Rows(images)[r.error.row])
    ensures r.Failure? && r.error.kind == Video ==>
              AllComplete(Rows(images)) && r.error.row < |Rows(videos)| && !Complete(Rows(videos)[r.error.row])
  {
    match ReadCursor(Rows(images), Image)
    case Failure(e) => Failure(e)
    case Success(imageItems) =>
      match ReadCursor(Rows(videos), Video)
      case Failure(e) => Failure(e)
      case Success(videoItems) => Success(imageItems + videoItems)
  }

  /** `getMediaList()` as written: one list, which the image loop fills and
      the video loop then extends. */
  method GetMediaList(images: Option<seq<Row>>, videos: Option<seq<Row>>) returns (r: Result<seq<MediaItem>, MediaError>)
    ensures r == MediaList(images, videos)
  {
    var mediaList: seq<MediaItem> := [];
    var afterImages := AddCursorItems(mediaList, Rows(images), Image);
    if afterImages.Failure? {
      return afterImages;
    }
    mediaList := afterImages.value;
    assert mediaList == ReadCursor(Rows(images), Image).value;
    r := AddCursorItems(mediaList, Rows(videos), Video);
  }

  /** One `while (cursor.moveToNext())` loop: appends an item per row to
      `mediaList`, or stops at the first row with a `null` string column. */
  method AddCursorItems(mediaList: seq<MediaItem>, rows: seq<Row>, kind: MediaType)
    returns (r: Result<seq<MediaItem>, MediaError>)
    ensures ReadCursor(rows, kind).Failure? ==> r == Failure(ReadCursor(rows, kind).error)
    ensures ReadCursor(rows, kind).Success? ==> r == Success(mediaList + ReadCursor(rows, kind).value)
  {
    var list := mediaList;
    ghost var added: seq<MediaItem> := [];
    var i := 0;
    while i < |rows|
      invariant 0 <= i <= |rows|
      invariant list == mediaList + added
      invariant ReadCursor(rows[..i], kind) == Success(added)
    {
      assert rows[..i + 1][..i] == rows[..i];
      if !Complete(rows[i]) {
        PrefixFailure(rows, i + 1, kind);
        return Failure(NullColumn(kind, i));
      }
      list := list + [ToItem(rows[i], kind)];
      added := added + [ToItem(rows[i], kind)];
      i := i + 1;
    }
    assert rows[..i] == rows;
    r := Success(list);
  }

  /** A read that fails on a prefix of the rows fails on all of them, at the
      same row. */
  lemma {:induction false} PrefixFailure(rows: seq<Row>, n: nat, kind: MediaType)
    requires n <= |rows| && ReadCursor(rows[..n], kind).Failure?
    ensures ReadCursor(rows, kind) == ReadCursor(rows[..n], kind)
    decreases |rows| - n
  {
    if n < |rows| {
      assert rows[..n + 1][..n] == rows[..n];
      PrefixFailure(rows, n + 1, kind);
    } else {
      assert rows[..n] == rows;
    }
  }

  /** A query that returned no cursor contributes nothing: the list is the
      other collection's items alone. */
  lemma NullCursorContributesNothing(images: Option<seq<Row>>, videos: Option<seq<Row>>)
    ensures MediaList(None, videos) == ReadCursor(Rows(videos), Video)
    ensures MediaList(images, None) == ReadCursor(Rows(images), Image)
  {
    match ReadCursor(Rows(videos), Video) {
      case Failure(_) =>
      case Success(items) => assert [] + items == items;
    }
    match ReadCursor(Rows(images), Image) {
      case Failure(_) =>
      case Success(items) => assert items + [] == items;
    }
  }

  /** Each collection's contribution does not depend on the other query:
      the image part is what the images alone give, the video part what the
      videos alone give. */
  lemma ContributionsIndependent(images: Option<seq<Row>>, videos: Option<seq<Row>>)
    requires MediaList(images, videos).Success?
    ensures MediaList(images, None).Success? && MediaList(None, videos).Success?
    ensures MediaList(images, videos).value
              == MediaList(images, None).value + MediaList(None, videos).value
  {
    NullCursorContributesNothing(images, videos);
  }

  /** The items of one kind, in list order. */
  function OfKind(items: seq<MediaItem>, kind: MediaType): seq<MediaItem> {
    if items == [] then
      []
    else
      var last := items[|items| - 1];
      OfKind(items[..|items| - 1], kind) + (if last.kind == kind then [last] else [])
  }

  lemma {:induction false} OfKindAppend(a: seq<MediaItem>, b: seq<MediaItem>, kind: MediaType)
    ensures OfKind(a + b, kind) == OfKind(a, kind) + OfKind(b, kind)
    decreases |b|
  {
    if b != [] {
      var n := |b| - 1;
      assert (a + b)[..|a + b| - 1] == a + b[..n];
      OfKindAppend(a, b[..n], kind);
    } else {
      assert a + b == a;
    }
  }

  lemma {:induction false} OfKindUniform(items: seq<MediaItem>, kind: MediaType, other: MediaType)
    requires forall i :: 0 <= i < |items| ==> items[i].kind == kind
    ensures OfKind(items, kind) == items
    ensures other != kind ==> OfKind(items, other) == []
    decreases |items|
  {
    if items != [] {
      var n := |items| - 1;
      OfKindUniform(items[..n], kind, other);
      assert items[..n] + [items[n]] == items;
    }
  }

  /** Selecting one kind from the list gives back exactly that collection's
      items, and there are as many of them as the query returned rows. */
  lemma {:induction false} KindsPartitionList(images: Option<seq<Row>>, videos: Option<seq<Row>>)
    requires MediaList(images, videos).Success?
    ensures var items := MediaList(images, videos).value;
      && OfKind(items, Image) == items[..|Rows(images)|]
      && OfKind(items, Video) == items[|Rows(images)|..]
      && |OfKind(items, Image)| == |Rows(images)|
      && |OfKind(items, Video)| == |Rows(videos)|
  {
    var items := MediaList(images, videos).value;
    var front := ReadCursor(Rows(images), Image).value;
    var back := ReadCursor(Rows(videos), Video).value;
    assert items == front + back;
    assert items[..|front|] == front && items[|front|..] == back;
    OfKindUniform(front, Image, Video);
    OfKindUniform(back, Video, Image);
    OfKindAppend(front, back, Image);
    OfKindAppend(front, back, Video);
    assert front + [] == front && [] + back == back;
  }

  /** The columns of every item in the list. */
  function RowsOf(items: seq<MediaItem>): (rows: seq<Row>)
    ensures |rows| == |items|
    ensures forall i :: 0 <= i < |items| ==> rows[i] == ToRow(items[i])
  {
    seq(|items|, i requires 0 <= i < |items| => ToRow(items[i]))
  }

  /** Nothing is lost, reordered or altered: the columns of the list are the
      image rows followed by the video rows. */
  lemma ListColumnsAreQueryRows(images: Option<seq<Row>>, videos: Option<seq<Row>>)
    requires MediaList(images, videos).Success?
    ensures RowsOf(MediaList(images, videos).value) == Rows(images) + Rows(videos)
  {
    var a := ReadCursor(Rows(images), Image);
    var b := ReadCursor(Rows(videos), Video);
    assert MediaList(images, videos).value == a.value + b.value;
    ReadCursorColumns(Rows(images), Image);
    ReadCursorColumns(Rows(videos), Video);
    assert RowsOf(a.value + b.value) == RowsOf(a.value) + RowsOf(b.value);
  }

  lemma ReadCursorColumns(rows: seq<Row>, kind: MediaType)
    requires ReadCursor(rows, kind).Success?
    ensures RowsOf(ReadCursor(rows, kind).value) == rows
  {
  }
}
