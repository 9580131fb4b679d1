/**
 * String primitives the eval runner relies on: ASCII lower-casing (`str.lower`),
 * substring membership (`needle in haystack`), `str.join`, and the way a
 * list of strings is rendered inside an f-string.
 */
module Text {

  /** `str.lower` restricted to ASCII: only 'A'..'Z' change. */
  function Lower(c: char): char
  {
    if 'A' <= c <= 'Z' then (c as int + 32) as char else c
  }

  /** `str.lower` on a whole string, one character at a time. */
  function LowerStr(s: string): (r: string)
    ensures |r| == |s|
    ensures forall i | 0 <= i < |s| :: r[i] == Lower(s[i])
  {
    if s == [] then [] else [Lower(s[0])] + LowerStr(s[1..])
  }

  /** Lower-casing commutes with dropping the first character. */
  lemma LowerStrTail(s: string)
    requires s != []
    ensures LowerStr(s[1..]) == LowerStr(s)[1..]
  {
  }

  /** `needle` is the prefix of `hay`. */
  predicate StartsWith(hay: string, needle: string)
  {
    |needle| <= |hay| && hay[..|needle|] == needle
  }

  /** Python's `needle in hay` on strings: try every start position from the left. */
  predicate Contains(hay: string, needle: string)
    decreases |hay|
  {
    StartsWith(hay, needle) || (hay != [] && Contains(hay[1..], needle))
  }

  /** `needle` occurs in `hay` starting at index `i`. */
  predicate OccursAt(hay: string, needle: string, i: int)
  {
    0 <= i && i + |needle| <= |hay| && hay[i..i + |needle|] == needle
  }

  /** A slice of the tail is the slice of the whole shifted by one. */
  lemma SliceOfTail(s: string, i: int, n: int)
    requires 1 <= i && 0 <= n && i + n <= |s|
    ensures s[1..][i - 1..i - 1 + n] == s[i..i + n]
  {
  }

  /** `Contains` means exactly that `needle` occurs at some index of `hay`. */
  lemma {:induction false} ContainsIff(hay: string, needle: string)
    ensures Contains(hay, needle) <==> exists i :: OccursAt(hay, needle, i)
    decreases |hay|
  {
    if StartsWith(hay, needle) {
      assert OccursAt(hay, needle, 0);
    } else if hay == [] {
    } else {
      ContainsIff(hay[1..], needle);
      if Contains(hay[1..], needle) {
        var i :| OccursAt(hay[1..], needle, i);
        SliceOfTail(hay, i + 1, |needle|);
        assert OccursAt(hay, needle, i + 1);
      } else {
        forall i | OccursAt(hay, needle, i) && i > 0
          ensures OccursAt(hay[1..], needle, i - 1)
        {
          SliceOfTail(hay, i, |needle|);
        }
      }
    }
  }

  /** The empty string occurs in every string. */
  lemma EmptyContained(hay: string)
    ensures Contains(hay, "")
  {
  }

  /** Python's `sep.join(parts)`. */
  function Join(parts: seq<string>, sep: string): (r: string)
    ensures parts == [] ==> r == ""
    ensures |parts| == 1 ==> r == parts[0]
    ensures |parts| == 2 ==> r == parts[0] + sep + parts[1]
  {
    if parts == [] then ""
    else if |parts| == 1 then parts[0]
    else parts[0] + sep + Join(parts[1..], sep)
  }

  /** `repr` of a string: the text between single quotes. */
  function Quote(s: string): string
  {
    "'" + s + "'"
  }

  /** A string contains itself. */
  lemma SelfContained(s: string)
    ensures Contains(s, s)
  {
    assert s[..|s|] == s;
  }

  /** An occurrence in `mid` is an occurrence in `pre + mid + post`, shifted by |pre|. */
  lemma OccursInside(pre: string, mid: string, post: string, needle: string, i: int)
    requires OccursAt(mid, needle, i)
    ensures OccursAt(pre + mid + post, needle, |pre| + i)
  {
    var s := pre + mid + post;
    forall j | 0 <= j < |needle|
      ensures s[|pre| + i + j] == needle[j]
    {
      assert mid[i..i + |needle|][j] == needle[j];
    }
    assert s[|pre| + i..|pre| + i + |needle|] == needle;
  }

  /** Whatever `mid` contains, `pre + mid + post` contains. */
  lemma ContainedInside(pre: string, mid: string, post: string, needle: string)
    requires Contains(mid, needle)
    ensures Contains(pre + mid + post, needle)
  {
    ContainsIff(mid, needle);
    var i :| OccursAt(mid, needle, i);
    OccursInside(pre, mid, post, needle, i);
    ContainsIff(pre + mid + post, needle);
  }

  /** `ContainedInside` for every needle at once. */
  lemma ContainsAllInside(pre: string, mid: string, post: string)
    ensures forall needle | Contains(mid, needle) :: Contains(pre + mid + post, needle)
  {
    forall needle | Contains(mid, needle)
      ensures Contains(pre + mid + post, needle)
    {
      ContainedInside(pre, mid, post, needle);
    }
  }

  /** `str(list_of_strings)`: `['a', 'b']`, naming every item between quotes. */
  function ListRepr(xs: seq<string>): (r: string)
    ensures |r| >= 2 && r[0] == '[' && r[|r| - 1] == ']'
    ensures forall k | k in xs :: Contains(r, Quote(k))
  {
    QuotedItemsNameAll(xs);
    ContainsAllInside("[", QuotedItems(xs), "]");
    "[" + QuotedItems(xs) + "]"
  }

  /** The items of a list repr, each quoted, separated by ", ". */
  function QuotedItems(xs: seq<string>): (r: string)
    ensures xs == [] <==> r == ""
  {
    if xs == [] then ""
    else if |xs| == 1 then Quote(xs[0])
    else Quote(xs[0]) + ", " + QuotedItems(xs[1..])
  }

  /** A string contains its own prefix part. */
  lemma HeadContained(head: string, tail: string)
    ensures Contains(head + tail, head)
  {
    assert (head + tail)[..|head|] == head;
  }

  /** A string contains whatever its suffix part contains. */
  lemma TailContained(head: string, tail: string, needle: string)
    requires Contains(tail, needle)
    ensures Contains(head + tail, needle)
  {
    ContainedInside(head, tail, "", needle);
    assert head + tail + "" == head + tail;
  }

  /** Every item of the list appears, quoted, among the rendered items. */
  lemma {:induction false} QuotedItemsNames(xs: seq<string>, k: string)
    requires k in xs
    ensures Contains(QuotedItems(xs), Quote(k))
  {
    var first := Quote(xs[0]);
    if |xs| == 1 {
      SelfContained(first);
    } else {
      var rest := QuotedItems(xs[1..]);
      assert QuotedItems(xs) == first + (", " + rest);
      if k == xs[0] {
        HeadContained(first, ", " + rest);
      } else {
        QuotedItemsNames(xs[1..], k);
        TailContained(first + ", ", rest, Quote(k));
        assert first + ", " + rest == first + (", " + rest);
      }
    }
  }

  lemma QuotedItemsNameAll(xs: seq<string>)
    ensures forall k | k in xs :: Contains(QuotedItems(xs), Quote(k))
  {
    forall k | k in xs
      ensures Contains(QuotedItems(xs), Quote(k))
    {
      QuotedItemsNames(xs, k);
    }
  }
}
