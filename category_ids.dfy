/**
 * The category-id serialiser of the edit handler: every id rendered in
 * decimal and the renderings joined with ',' into the single string the
 * UpdateCategory stored procedure takes. Join and Split follow Go's
 * strings.Join and strings.Split for a one-character separator.
 */
module CategoryIds {
  import opened Wrappers
  import opened Decimal

  const Comma: char := ','

  /** strings.Join: the parts with sep between neighbours; no parts give "". */
  function Join(parts: seq<string>, sep: char): string
    decreases |parts|
  {
    if |parts| == 0 then ""
    else if |parts| == 1 then parts[0]
    else parts[0] + [sep] + Join(parts[1..], sep)
  }

  /** Number of occurrences of c in s. */
  function Occurrences(s: string, c: char): nat
    decreases |s|
  {
    if |s| == 0 then 0 else (if s[0] == c then 1 else 0) + Occurrences(s[1..], c)
  }

  /**
   * strings.Split: the maximal pieces of s between separators. There is always
   * one more piece than separators, so Split("", sep) == [""].
   */
  function Split(s: string, sep: char): (pieces: seq<string>)
    ensures |pieces| == Occurrences(s, sep) + 1
    decreases |s|
  {
    if |s| == 0 then [""]
    else
      var rest := Split(s[1..], sep);
      if s[0] == sep then [""] + rest else [[s[0]] + rest[0]] + rest[1..]
  }

  /** fmt.Sprint of every id, in order: the stringNumbers slice once filled. */
  function Rendered(ids: seq<int>): seq<string> {
    seq(|ids|, i requires 0 <= i < |ids| => IntToDecimal(ids[i]))
  }

  /** The string passed to UpdateCategory for the category list ids. */
  function Serialized(ids: seq<int>): string {
    Join(Rendered(ids), Comma)
  }

  /** Decimal parse of every piece, failing if any piece fails. */
  function ParseEach(pieces: seq<string>): Option<seq<int>>
    decreases |pieces|
  {
    if |pieces| == 0 then Some([])
    else
      match (ParseInt(pieces[0]), ParseEach(pieces[1..]))
      case (Some(x), Some(xs)) => Some([x] + xs)
      case _ => None
  }

  /**
   * The reading of a serialised list: "" is the empty list (Split would give
   * the single piece ""), anything else is split on ',' and parsed piecewise.
   */
  function ParseCategoryIds(s: string): Option<seq<int>> {
    if s == "" then Some([]) else ParseEach(Split(s, Comma))
  }

  /**
   * main.go:102-106: fills stringNumbers by index, then joins it with ",".
   */
  method SerializeCategories(categories: seq<int>) returns (result: string)
    ensures result == Serialized(categories)
    ensures (result == "") == (|categories| == 0)
    ensures ParseCategoryIds(result) == Some(categories)
  {
    var stringNumbers := new string[|categories|];
    for i := 0 to |categories|
      invariant forall k :: 0 <= k < i ==> stringNumbers[k] == IntToDecimal(categories[k])
    {
      stringNumbers[i] := IntToDecimal(categories[i]);
    }
    assert stringNumbers[..] == Rendered(categories);
    result := Join(stringNumbers[..], Comma);
    SerializedIsEmptyIff(categories);
    SerializedRoundTrip(categories);
  }

  lemma {:induction false} SplitWithoutSeparator(a: string, sep: char)
    requires sep !in a
    ensures Split(a, sep) == [a]
    decreases |a|
  {
    if |a| > 0 {
      SplitWithoutSeparator(a[1..], sep);
      assert [a[0]] + a[1..] == a;
    }
  }

  lemma {:induction false} SplitAtSeparator(a: string, b: string, sep: char)
    requires sep !in a
    ensures Split(a + [sep] + b, sep) == [a] + Split(b, sep)
    decreases |a|
  {
    var s := a + [sep] + b;
    if |a| == 0 {
      assert s[1..] == b;
    } else {
      assert s[1..] == a[1..] + [sep] + b;
      SplitAtSeparator(a[1..], b, sep);
      assert [a[0]] + a[1..] == a;
    }
  }

  /** Splitting a join gives the parts back when no part holds the separator. */
  lemma {:induction false} SplitJoin(parts: seq<string>, sep: char)
    requires |parts| >= 1
    requires forall k :: 0 <= k < |parts| ==> sep !in parts[k]
    ensures Split(Join(parts, sep), sep) == parts
    decreases |parts|
  {
    if |parts| == 1 {
      SplitWithoutSeparator(parts[0], sep);
    } else {
      SplitJoin(parts[1..], sep);
      SplitAtSeparator(parts[0], Join(parts[1..], sep), sep);
      assert [parts[0]] + parts[1..] == parts;
    }
  }

  lemma {:induction false} ParseEachRendered(ids: seq<int>)
    ensures ParseEach(Rendered(ids)) == Some(ids)
    decreases |ids|
  {
    if |ids| > 0 {
      assert Rendered(ids)[1..] == Rendered(ids[1..]);
      ParseEachRendered(ids[1..]);
      IntToDecimalRoundTrip(ids[0]);
      assert [ids[0]] + ids[1..] == ids;
    }
  }

  lemma RenderedHasNoComma(ids: seq<int>)
    ensures forall k :: 0 <= k < |ids| ==> Comma !in Rendered(ids)[k]
  {
  }

  /** An empty (or nil) category list, and only that, serialises to "". */
  lemma SerializedIsEmptyIff(ids: seq<int>)
    ensures (Serialized(ids) == "") == (ids == [])
  {
  }

  /**
   * For n >= 1 ids the string holds exactly n - 1 commas, and the k-th
   * comma-separated piece is the decimal rendering of ids[k]: order and
   * duplicates are kept.
   */
  lemma SerializedPieces(ids: seq<int>)
    requires |ids| >= 1
    ensures Occurrences(Serialized(ids), Comma) == |ids| - 1
    ensures |Split(Serialized(ids), Comma)| == |ids|
    ensures forall k :: 0 <= k < |ids| ==> Split(Serialized(ids), Comma)[k] == IntToDecimal(ids[k])
  {
    RenderedHasNoComma(ids);
    SplitJoin(Rendered(ids), Comma);
  }

  /** Splitting the serialised string on ',' and parsing every piece gives the list back. */
  lemma SerializedRoundTrip(ids: seq<int>)
    ensures ParseCategoryIds(Serialized(ids)) == Some(ids)
  {
    SerializedIsEmptyIff(ids);
    if ids != [] {
      RenderedHasNoComma(ids);
      SplitJoin(Rendered(ids), Comma);
      ParseEachRendered(ids);
    }
  }

  /** Equal strings only for equal lists: the serialiser loses nothing. */
  lemma SerializedInjective(a: seq<int>, b: seq<int>)
    requires Serialized(a) == Serialized(b)
    ensures a == b
  {
    SerializedRoundTrip(a);
    SerializedRoundTrip(b);
  }
}
