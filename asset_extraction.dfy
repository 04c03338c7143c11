/**
 * How the asset-usage index finds the assets a property value refers to
 * (`extractAssetIds` of the index service): `asset://<id>` links inside
 * strings, the identifier of a resource-based object, and the concatenation
 * over the elements of a collection whose element type is resource based or
 * stringable.
 */
module AssetExtraction {
  import opened Wrappers
  import opened ContentModel

  // ---------------------------------------------------------------------------
  // The `asset://` scanner: preg_match_all('/asset:\/\/(?<assetId>[\w-]*)/i', ...)

  const Scheme: string := "asset://"

  /** `[\w-]` without the `u` modifier: an ASCII letter, digit, underscore or dash. */
  predicate IsIdChar(c: char)
  {
    ('a' <= c <= 'z') || ('A' <= c <= 'Z') || ('0' <= c <= '9') || c == '_' || c == '-'
  }

  predicate IsAssetIdText(id: string)
  {
    forall k :: 0 <= k < |id| ==> IsIdChar(id[k])
  }

  /** ASCII lower-casing, the case folding of a pattern with the `i` modifier. */
  function LowerAscii(c: char): char
  {
    if 'A' <= c <= 'Z' then (c as int + 32) as char else c
  }

  /** `asset://`, in any letter case, starts at position `i` of `s`. */
  predicate SchemeAt(s: string, i: nat)
  {
    && i + |Scheme| <= |s|
    && LowerAscii(s[i]) == 'a' && LowerAscii(s[i + 1]) == 's' && LowerAscii(s[i + 2]) == 's'
    && LowerAscii(s[i + 3]) == 'e' && LowerAscii(s[i + 4]) == 't'
    && s[i + 5] == ':' && s[i + 6] == '/' && s[i + 7] == '/'
  }

  /** The end of the longest run of `[\w-]` characters starting at `i`: the greedy `*`. */
  function RunEnd(s: string, i: nat): (e: nat)
    requires i <= |s|
    ensures i <= e <= |s|
    ensures IsAssetIdText(s[i..e])
    ensures e == |s| || !IsIdChar(s[e])
    decreases |s| - i
  {
    if i == |s| || !IsIdChar(s[i]) then i
    else
      var e := RunEnd(s, i + 1);
      assert s[i..e] == [s[i]] + s[i + 1..e];
      e
  }

  /**
   * The matches of the pattern at or after position `i`, in order: the
   * leftmost match is taken, and the search resumes where it ended. Every
   * match consists of `[\w-]` characters only.
   */
  function ScanFrom(s: string, i: nat): (ids: seq<AssetId>)
    requires i <= |s|
    ensures forall id :: id in ids ==> IsAssetIdText(id)
    decreases |s| - i
  {
    if i + |Scheme| > |s| then []
    else if SchemeAt(s, i) then
      var e := RunEnd(s, i + |Scheme|);
      [s[i + |Scheme|..e]] + ScanFrom(s, e)
    else ScanFrom(s, i + 1)
  }

  /** The `assetId` groups of all matches of `/asset:\/\/(?<assetId>[\w-]*)/i` in `s`. */
  function Scan(s: string): (ids: seq<AssetId>)
    ensures forall id :: id in ids ==> IsAssetIdText(id)
  {
    ScanFrom(s, 0)
  }

  /** A string without `asset://` (in any case) yields no identifier at all. */
  lemma {:induction false} ScanFromWithoutScheme(s: string, i: nat)
    requires i <= |s|
    requires forall j :: i <= j <= |s| ==> !SchemeAt(s, j)
    ensures ScanFrom(s, i) == []
    decreases |s| - i
  {
    if i + |Scheme| <= |s| {
      ScanFromWithoutScheme(s, i + 1);
    }
  }

  /** Text in front of `s` does not change what is found from a position of `s` on. */
  lemma {:induction false} RunEndShift(p: string, s: string, i: nat)
    requires i <= |s|
    ensures RunEnd(p + s, |p| + i) == |p| + RunEnd(s, i)
    decreases |s| - i
  {
    assert forall k :: 0 <= k < |s| ==> (p + s)[|p| + k] == s[k];
    if i < |s| && IsIdChar(s[i]) {
      RunEndShift(p, s, i + 1);
    }
  }

  lemma SchemeAtShift(p: string, s: string, i: nat)
    requires i + |Scheme| <= |s|
    ensures SchemeAt(p + s, |p| + i) <==> SchemeAt(s, i)
  {
    var t := p + s;
    assert t[|p| + i] == s[i] && t[|p| + i + 1] == s[i + 1] && t[|p| + i + 2] == s[i + 2];
    assert t[|p| + i + 3] == s[i + 3] && t[|p| + i + 4] == s[i + 4] && t[|p| + i + 5] == s[i + 5];
    assert t[|p| + i + 6] == s[i + 6] && t[|p| + i + 7] == s[i + 7];
  }

  lemma {:induction false} ScanFromShift(p: string, s: string, i: nat)
    requires i <= |s|
    ensures ScanFrom(p + s, |p| + i) == ScanFrom(s, i)
    decreases |s| - i
  {
    var t := p + s;
    var j := |p| + i;
    if i + |Scheme| <= |s| {
      SchemeAtShift(p, s, i);
      if SchemeAt(s, i) {
        var e := RunEnd(s, i + |Scheme|);
        RunEndShift(p, s, i + |Scheme|);
        assert RunEnd(t, j + |Scheme|) == |p| + e;
        assert t[j + |Scheme|..|p| + e] == s[i + |Scheme|..e];
        ScanFromShift(p, s, e);
        assert ScanFrom(s, i) == [s[i + |Scheme|..e]] + ScanFrom(s, e);
        assert ScanFrom(t, j) == [t[j + |Scheme|..|p| + e]] + ScanFrom(t, |p| + e);
      } else {
        ScanFromShift(p, s, i + 1);
        assert ScanFrom(s, i) == ScanFrom(s, i + 1);
        assert ScanFrom(t, j) == ScanFrom(t, j + 1);
      }
    } else {
      assert j + |Scheme| > |t|;
    }
  }

  /** The greedy run passes over any stretch of `[\w-]` characters. */
  lemma {:induction false} RunEndOver(s: string, i: nat, j: nat)
    requires i <= j <= |s| && IsAssetIdText(s[i..j])
    ensures RunEnd(s, i) == RunEnd(s, j)
    decreases j - i
  {
    if i < j {
      assert s[i..j][0] == s[i];
      assert s[i + 1..j] == s[i..j][1..];
      RunEndOver(s, i + 1, j);
    }
  }

  /** Identifiers written as `asset://<id>` links, each followed by a blank. */
  function Render(ids: seq<AssetId>): string
  {
    if ids == [] then "" else Scheme + ids[0] + " " + Render(ids[1..])
  }

  /** One link followed by a blank yields its identifier, then whatever the rest of the text yields. */
  lemma ScanLink(id: AssetId, rest: string)
    requires IsAssetIdText(id)
    ensures Scan(Scheme + id + " " + rest) == [id] + Scan(rest)
  {
    var blank := Scheme + id + " ";
    var t := blank + rest;
    var e := |Scheme| + |id|;
    assert t[..|Scheme|] == Scheme;
    assert SchemeAt(t, 0);
    assert t[|Scheme|..e] == id;
    RunEndOver(t, |Scheme|, e);
    assert t[e] == ' ';
    assert RunEnd(t, |Scheme|) == e;
    assert ScanFrom(t, 0) == [id] + ScanFrom(t, e);
    assert ScanFrom(t, e) == ScanFrom(t, |blank|) by {
      if e + |Scheme| <= |t| {
        assert !SchemeAt(t, e);
      }
    }
    ScanFromShift(blank, rest, 0);
  }

  /** Scanning finds back, in order, every identifier written as a link. */
  lemma {:induction false} ScanRender(ids: seq<AssetId>)
    requires forall id :: id in ids ==> IsAssetIdText(id)
    ensures Scan(Render(ids)) == ids
  {
    if ids != [] {
      ScanLink(ids[0], Render(ids[1..]));
      ScanRender(ids[1..]);
    }
  }

  // ---------------------------------------------------------------------------
  // extractAssetIds

  /** Joins the results of two extractions; an exception in either is an exception. */
  function Join(a: Option<seq<AssetId>>, b: Option<seq<AssetId>>): Option<seq<AssetId>>
  {
    if a.Some? && b.Some? then Some(a.value + b.value) else None
  }

  /**
   * The identifiers `extractAssetIds` returns for a value of the given type;
   * `None` when it throws (an identifier requested for a value that is not an
   * object, or a collection iterated that is not iterable).
   */
  function AssetIdsOf(t: PropertyType, v: PropertyValue): Option<seq<AssetId>>
    decreases v, 1
  {
    if v.NullValue? then Some([])
    else if v.StringValue? then Some(Scan(v.s))
    else if t.resourceBased then
      (if v.ObjectValue? then Some([v.identifier]) else None)
    else if t.elementType.None? then Some([])
    else if !t.elementType.value.resourceBased && !t.elementType.value.stringable then Some([])
    else if v.ListValue? then ConcatOf(t.elementType.value, v.elements)
    else None
  }

  /** `array_merge(...)` of the extractions of the elements, in order. */
  function ConcatOf(et: PropertyType, elements: seq<PropertyValue>): Option<seq<AssetId>>
    decreases elements, 0
  {
    if elements == [] then Some([])
    else Join(AssetIdsOf(et, elements[0]), ConcatOf(et, elements[1..]))
  }

  /** The extraction of a concatenated collection is the concatenation of the extractions. */
  lemma {:induction false} ConcatOfAppend(et: PropertyType, a: seq<PropertyValue>, b: seq<PropertyValue>)
    ensures ConcatOf(et, a + b) == Join(ConcatOf(et, a), ConcatOf(et, b))
  {
    if a != [] {
      assert (a + b)[0] == a[0];
      assert (a + b)[1..] == a[1..] + b;
      ConcatOfAppend(et, a[1..], b);
      var x, y, z := AssetIdsOf(et, a[0]), ConcatOf(et, a[1..]), ConcatOf(et, b);
      if x.Some? && y.Some? && z.Some? {
        assert x.value + (y.value + z.value) == (x.value + y.value) + z.value;
      }
    } else {
      assert a + b == b;
      if ConcatOf(et, b).Some? {
        assert [] + ConcatOf(et, b).value == ConcatOf(et, b).value;
      }
    }
  }

  /** A collection of strings yields the links of each string, element after element. */
  lemma {:induction false} StringCollection(et: PropertyType, texts: seq<string>)
    ensures ConcatOf(et, seq(|texts|, i requires 0 <= i < |texts| => StringValue(texts[i])))
         == Some(ScanAll(texts))
  {
    var vs := seq(|texts|, i requires 0 <= i < |texts| => StringValue(texts[i]));
    if texts != [] {
      var vs' := seq(|texts[1..]|, i requires 0 <= i < |texts[1..]| => StringValue(texts[1..][i]));
      assert vs[1..] == vs';
      StringCollection(et, texts[1..]);
    }
  }

  function ScanAll(texts: seq<string>): seq<AssetId>
  {
    if texts == [] then [] else Scan(texts[0]) + ScanAll(texts[1..])
  }

  /**
   * `extractAssetIds($type, $value)`, with the loop over the elements of a
   * collection; `None` when it throws.
   */
  method ExtractAssetIds(t: PropertyType, v: PropertyValue) returns (r: Option<seq<AssetId>>)
    ensures r == AssetIdsOf(t, v)
    decreases v
  {
    if v.NullValue? {
      return Some([]);
    }
    if v.StringValue? {
      return Some(Scan(v.s));
    }
    if t.resourceBased {
      if v.ObjectValue? {
        return Some([v.identifier]);
      }
      return None;
    }
    if t.elementType.None? {
      return Some([]);
    }
    var et := t.elementType.value;
    if !et.resourceBased && !et.stringable {
      return Some([]);
    }
    if !v.ListValue? {
      return None;
    }
    var elements := v.elements;
    var ids: seq<AssetId> := [];
    var i := 0;
    while i < |elements|
      invariant 0 <= i <= |elements|
      invariant ConcatOf(et, elements[..i]) == Some(ids)
    {
      var x := ExtractAssetIds(et, elements[i]);
      ConcatOfAppend(et, elements[..i], [elements[i]]);
      assert ConcatOf(et, [elements[i]]) == x by {
        assert [elements[i]][1..] == [];
        if x.Some? {
          assert x.value + [] == x.value;
        }
      }
      assert elements[..i + 1] == elements[..i] + [elements[i]];
      if x.None? {
        ConcatOfAppend(et, elements[..i + 1], elements[i + 1..]);
        assert elements[..i + 1] + elements[i + 1..] == elements;
        return None;
      }
      ids := ids + x.value;
      i := i + 1;
    }
    assert elements[..i] == elements;
    return Some(ids);
  }
}
