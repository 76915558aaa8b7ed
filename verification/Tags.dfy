/**
 * Namespace-agnostic tag names and page links. Both helpers appear, identically,
 * in the streaming parser and in its older event-free variant.
 */
module Tags {
  import Strings

  /** `s` after its first occurrence of `c`. */
  function AfterChar(s: string, c: char): (r: string)
    requires c in s
    ensures |r| < |s|
  {
    if s[0] == c then s[1..] else AfterChar(s[1..], c)
  }

  /** The part `AfterChar` drops is everything up to and including the first `c`. */
  lemma {:induction false} AfterCharCut(s: string, c: char)
    requires c in s
    ensures var r := AfterChar(s, c);
      && r == s[|s| - |r|..]
      && s[|s| - |r| - 1] == c && c !in s[..|s| - |r| - 1]
  {
    if s[0] != c {
      assert c in s[1..] by {
        var k :| 0 <= k < |s| && s[k] == c;
        assert s[1..][k - 1] == c;
      }
      AfterCharCut(s[1..], c);
      var r := AfterChar(s[1..], c);
      assert s[1..][..|s| - 1 - |r| - 1] == s[1..|s| - |r| - 1];
    }
  }

  /**
   * The element's tag with any `{namespace-uri}` prefix removed: everything after the first
   * `}` when there is one, otherwise the tag unchanged.
   */
  function TagName(tag: string): (r: string)
    ensures '}' !in tag ==> r == tag
    ensures '}' in tag ==> |r| < |tag|
  {
    if '}' in tag then AfterChar(tag, '}') else tag
  }

  /** With a `}` in the tag, the name is the suffix after the first `}`. */
  lemma TagNameCut(tag: string)
    requires '}' in tag
    ensures var r := TagName(tag);
      && r == tag[|tag| - |r|..]
      && tag[|tag| - |r| - 1] == '}' && '}' !in tag[..|tag| - |r| - 1]
  {
    AfterCharCut(tag, '}');
  }

  /** Any namespace wrapping gives the same local name as the bare tag. */
  lemma NamespaceInvariance(uri: string, local: string)
    requires '}' !in uri && '}' !in local
    ensures TagName("{" + uri + "}" + local) == local
    ensures TagName(local) == local
  {
    var tag := "{" + uri + "}" + local;
    assert tag[|uri| + 1] == '}';
    TagNameCut(tag);
    var r := TagName(tag);
    var n := |tag| - |r| - 1;
    assert tag[n] == '}';
    assert forall k :: 0 <= k < |uri| + 1 ==> tag[k] != '}' by {
      forall k | 0 <= k < |uri| + 1 ensures tag[k] != '}' {
        if k > 0 { assert tag[k] == uri[k - 1]; }
      }
    }
    assert n >= |uri| + 1;
    assert n <= |uri| + 1 by {
      assert forall k :: 0 <= k < n ==> tag[k] != '}' by {
        forall k | 0 <= k < n ensures tag[k] != '}' { assert tag[k] == tag[..n][k]; }
      }
    }
    assert r == tag[|uri| + 2..];
  }

  const WikiPrefix: string := "https://en.wikipedia.org/wiki/"

  /** The character a title character contributes to its link. */
  function LinkChar(c: char): char {
    if c == ' ' then '_' else c
  }

  /** The article link: the fixed prefix, then the title with each space written as `_`. */
  function WikiUrl(title: string): (url: string)
    ensures |url| == |WikiPrefix| + |title|
    ensures url[..|WikiPrefix|] == WikiPrefix
    ensures forall k :: 0 <= k < |title| ==> url[|WikiPrefix| + k] == LinkChar(title[k])
    ensures ' ' !in url
  {
    var safe := Strings.ReplaceChar(title, ' ', '_');
    assert ' ' !in WikiPrefix;
    assert ' ' !in safe;
    WikiPrefix + safe
  }

  /**
   * Two titles share a link exactly when they agree character by character once spaces
   * and underscores are identified: the link is not percent-encoded.
   */
  lemma WikiUrlCollision(a: string, b: string)
    ensures WikiUrl(a) == WikiUrl(b) <==>
      |a| == |b| && forall k :: 0 <= k < |a| ==> LinkChar(a[k]) == LinkChar(b[k])
  {
    var ua, ub := WikiUrl(a), WikiUrl(b);
    if ua == ub {
      forall k | 0 <= k < |a| ensures LinkChar(a[k]) == LinkChar(b[k]) {
        assert ua[|WikiPrefix| + k] == ub[|WikiPrefix| + k];
      }
    }
    if |a| == |b| && forall k :: 0 <= k < |a| ==> LinkChar(a[k]) == LinkChar(b[k]) {
      forall i | 0 <= i < |ua| ensures ua[i] == ub[i] {
        if i < |WikiPrefix| {
          assert ua[..|WikiPrefix|][i] == ub[..|WikiPrefix|][i];
        } else {
          assert ua[|WikiPrefix| + (i - |WikiPrefix|)] == LinkChar(a[i - |WikiPrefix|]);
        }
      }
    }
  }

  /** A title without spaces is appended to the prefix verbatim. */
  lemma WikiUrlVerbatim(title: string)
    requires ' ' !in title
    ensures WikiUrl(title) == WikiPrefix + title
  {
    var url := WikiUrl(title);
    forall i | 0 <= i < |url| ensures url[i] == (WikiPrefix + title)[i] {
      if i < |WikiPrefix| {
        assert url[..|WikiPrefix|][i] == url[i];
      } else {
        assert url[|WikiPrefix| + (i - |WikiPrefix|)] == LinkChar(title[i - |WikiPrefix|]);
      }
    }
  }
}
