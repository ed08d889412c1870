/** Delivery items: the longest excerpt of a source that keeps the serialized item within its bound. */
module Excerpts {
  import opened Basics
  import opened Inliner
  import NodeData

  const EXCERPT_BYTES := 1024
  const ITEM_BYTES := 2048

  datatype Excerpt = Excerpt(text: string, truncated: bool)

  // ----- Prefixes in bytes -----

  lemma {:induction false} BytesJoin(a: string, b: string)
    ensures Bytes(a + b) == Bytes(a) + Bytes(b)
  {
    if a == "" {
      assert a + b == b;
    } else {
      assert (a + b)[1..] == a[1..] + b;
      BytesJoin(a[1..], b);
    }
  }

  /** The whole characters within a number of bytes. */
  function FirstBytes(text: string, limit: nat): (r: string)
    ensures r <= text && Bytes(r) <= limit
    ensures |r| < |text| ==> Bytes(text[..|r| + 1]) > limit
    ensures text != "" && limit >= 4 ==> r != ""
  {
    if text == "" || CharBytes(text[0]) > limit then
      assert text != "" ==> text[..1][1..] == "";
      ""
    else
      var rest := FirstBytes(text[1..], limit - CharBytes(text[0]));
      var r := [text[0]] + rest;
      assert |r| < |text| ==> text[..|r| + 1][1..] == text[1..][..|rest| + 1];
      r
  }

  // ----- The item's size -----

  /** The bytes of an item whose other fields take `fixed`: the excerpt as JSON text, and `true` or
      `false` for whether it is all of the content. */
  function ItemBytes(fixed: nat, excerpt: string, content: string): nat {
    fixed + Bytes(NodeData.Escaped(excerpt)) + if excerpt != content then 4 else 5
  }

  /** The excerpt and the flag count as their JSON does; the quotes are part of `fixed`. */
  lemma ItemIsItsJson(fixed: nat, excerpt: string, content: string, depth: nat)
    ensures ItemBytes(fixed, excerpt, content) + 2
            == fixed + Bytes(NodeData.Dump(NodeData.Text(excerpt), depth)) + Bytes(NodeData.Dump(NodeData.Flag(excerpt != content), depth))
  {
    BytesJoin("\"" + NodeData.Escaped(excerpt), "\"");
    BytesJoin("\"", NodeData.Escaped(excerpt));
    assert Bytes("\"") == 1;
    BytesJoin("tr", "ue");
    BytesJoin("fa", "lse");
    assert "tr" + "ue" == "true" && "fa" + "lse" == "false";
    assert "tr"[1..] == "r" && "ue"[1..] == "e" && "fa"[1..] == "a" && "lse"[1..] == "se" && "se"[1..] == "e";
  }

  lemma BytesGrow(text: string, i: nat, j: nat)
    requires i <= j <= |text|
    ensures Bytes(NodeData.Escaped(text[..i])) <= Bytes(NodeData.Escaped(text[..j]))
  {
    assert text[..j] == text[..i] + text[i..j];
    NodeData.EscapedJoin(text[..i], text[i..j]);
    BytesJoin(NodeData.Escaped(text[..i]), NodeData.Escaped(text[i..j]));
  }

  /** Of the proper prefixes exactly those up to one that fits, and is the last or followed by one
      that does not, fit. */
  lemma FitsUpTo(fixed: nat, text: string, content: string, low: nat)
    requires low < |text| <= |content| && ItemBytes(fixed, text[..low], content) <= ITEM_BYTES
    requires low + 1 < |text| ==> ItemBytes(fixed, text[..low + 1], content) > ITEM_BYTES
    ensures forall k | 0 <= k < |text| :: ItemBytes(fixed, text[..k], content) <= ITEM_BYTES <==> k <= low
  {
    forall k | 0 <= k < |text| ensures ItemBytes(fixed, text[..k], content) <= ITEM_BYTES <==> k <= low {
      if k <= low {
        BytesGrow(text, k, low);
      } else {
        BytesGrow(text, low + 1, k);
      }
    }
  }

  /** The excerpt of a source: all of its first kilobyte if that fits; else the longest shorter
      prefix that does. None only when the item's own metadata leaves no room for any. */
  method BoundedExcerpt(fixed: nat, content: string) returns (r: Option<Excerpt>)
    ensures r.Some? ==> ItemBytes(fixed, r.value.text, content) <= ITEM_BYTES && r.value.truncated == (r.value.text != content)
    ensures r.Some? ==> fixed + Bytes(NodeData.Escaped(r.value.text)) + (if r.value.truncated then 4 else 5) <= 2048
    ensures var text := FirstBytes(content, EXCERPT_BYTES);
            if ItemBytes(fixed, text, content) <= ITEM_BYTES then r.Some? && r.value.text == text
            else if r.Some? then r.value.text < text
                              && forall k | 0 <= k < |text| :: ItemBytes(fixed, text[..k], content) <= ITEM_BYTES <==> k <= |r.value.text|
            else ItemBytes(fixed, "", content) > ITEM_BYTES
  {
    var text := FirstBytes(content, EXCERPT_BYTES);
    if ItemBytes(fixed, text, content) <= ITEM_BYTES {
      return Some(Excerpt(text, text != content));
    }
    if text == "" {
      return None;
    }
    var low, high := 0, |text| - 1;
    while low < high
      invariant 0 <= low <= high < |text|
      invariant low > 0 ==> ItemBytes(fixed, text[..low], content) <= ITEM_BYTES
      invariant high < |text| - 1 ==> ItemBytes(fixed, text[..high + 1], content) > ITEM_BYTES
    {
      var middle := (low + high + 1) / 2;
      if ItemBytes(fixed, text[..middle], content) <= ITEM_BYTES {
        low := middle;
      } else {
        high := middle - 1;
      }
    }
    assert text[..0] == "";
    if ItemBytes(fixed, text[..low], content) > ITEM_BYTES {
      return None;
    }
    FitsUpTo(fixed, text, content, low);
    return Some(Excerpt(text[..low], text[..low] != content));
  }
}
