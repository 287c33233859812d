/**
 * The file list's type filter: `all`, or one of five words that the item's
 * `type` must contain (case-sensitively) for the item to be listed.
 */
module DataList {
  import opened Optional
  import opened Strings
  import Seqs

  datatype FilterType = All | Pdf | Png | Jpeg | Jpg | Dcm

  /** What the filter reads of a list item; `None` is a missing `type`. */
  datatype Item = Item(name: string, itemType: Option<string>)

  function Word(f: FilterType): string
    requires f != All
  {
    match f
    case Pdf => "pdf"
    case Png => "png"
    case Jpeg => "jpeg"
    case Jpg => "jpg"
    case Dcm => "dcm"
  }

  /** The `data.filter` callback for the selected filter. */
  predicate Keeps(f: FilterType, item: Item) {
    f == All || (item.itemType.Some? && Contains(item.itemType.value, Word(f)))
  }

  function Keeper(f: FilterType): Item -> bool {
    item => Keeps(f, item)
  }

  function FilteredData(data: seq<Item>, f: FilterType): seq<Item> {
    Seqs.Filter(Keeper(f), data)
  }

  /** `all` lists everything, in order. */
  lemma AllKeepsData(data: seq<Item>)
    ensures FilteredData(data, All) == data
  {
    Seqs.FilterAll(Keeper(All), data);
  }

  /**
   * The list shown is the data with some items left out and the rest in order;
   * an item is shown exactly when it has a type containing the filter's word.
   */
  lemma FilteredKeepsExactly(data: seq<Item>, f: FilterType)
    ensures Seqs.IsSubsequence(FilteredData(data, f), data)
    ensures forall item :: item in FilteredData(data, f) <==> item in data && Keeps(f, item)
  {
    Seqs.FilterIsSubsequence(Keeper(f), data);
    Seqs.FilterKeepsExactly(Keeper(f), data);
    var r := FilteredData(data, f);
    forall item | item in r
      ensures item in data
    {
      Seqs.SubsequenceMembers(r, data, item);
    }
  }

  /** Filtering the shown list again shows the same list. */
  lemma FilterTwice(data: seq<Item>, f: FilterType)
    ensures FilteredData(FilteredData(data, f), f) == FilteredData(data, f)
  {
    Seqs.FilterIdempotent(Keeper(f), data);
  }

  /** The match is on the substring, so `jpg` does not list a `jpeg` file, and a missing type matches nothing. */
  lemma JpgMissesJpeg()
    ensures !Keeps(Jpg, Item("xray.jpg", Some("image/jpeg")))
    ensures Keeps(Jpeg, Item("xray.jpg", Some("image/jpeg")))
    ensures !Keeps(Pdf, Item("report.pdf", None))
  {
    JpgNotInJpegType();
    var t := "image/jpeg";
    assert t[6..10] == "jpeg";
    OccursContains(t, "jpeg", 6);
  }

  lemma OccursContains(s: string, sub: string, k: int)
    requires OccursAt(s, sub, k)
    ensures Contains(s, sub)
  {
    ContainsAt(s, sub);
  }

  /** `jpg` cannot start at `k` when the first or the last of the three characters there differs. */
  lemma JpgNotAt(t: string, k: int)
    requires 0 <= k <= |t| - 3 && (t[k] != 'j' || t[k + 2] != 'g')
    ensures !OccursAt(t, "jpg", k)
  {
    if t[k] != 'j' {
      assert t[k..k + 3][0] == t[k];
    } else {
      assert t[k..k + 3][2] == t[k + 2];
    }
  }

  lemma NoJpg(t: string)
    requires forall k :: 0 <= k <= |t| - 3 ==> t[k] != 'j' || t[k + 2] != 'g'
    ensures !Contains(t, "jpg")
  {
    ContainsAt(t, "jpg");
    forall k | 0 <= k <= |t| - 3
      ensures !OccursAt(t, "jpg", k)
    {
      JpgNotAt(t, k);
    }
  }

  lemma JpgNotInJpegType()
    ensures !Contains("image/jpeg", "jpg")
  {
    var t := "image/jpeg";
    forall k | 0 <= k <= |t| - 3
      ensures t[k] != 'j' || t[k + 2] != 'g'
    {
      if k == 6 {
        assert t[k + 2] == 'e';
      }
    }
    NoJpg(t);
  }
}
