/** Splitting a chirp into space-separated tokens and joining them back,
with the semantics of Go's `strings.Split(s, " ")` and `strings.Join(ws, " ")`.

`Split` always yields at least one token: the empty string splits into one
empty token, and leading, trailing or repeated spaces give empty tokens.
 */
module Words {
  import opened Text

  /** `strings.Index(s, string(b))`: the first position of `b`, or -1. */
  function Index(s: Bytes, b: Byte): (r: int)
    ensures -1 <= r < |s|
    ensures r == -1 <==> b !in s
    ensures 0 <= r ==> s[r] == b && b !in s[..r]
  {
    if |s| == 0 then -1
    else if s[0] == b then 0
    else
      var k := Index(s[1..], b);
      if k == -1 then -1 else k + 1
  }

  /** No token contains the separator. */
  predicate NoSpaces(ws: seq<Bytes>) {
    forall i :: 0 <= i < |ws| ==> Space !in ws[i]
  }

  /** `strings.Split(s, " ")`: cut at every space, keeping empty tokens. */
  function Split(s: Bytes): (ws: seq<Bytes>)
    ensures |ws| >= 1
    ensures NoSpaces(ws)
    decreases |s|
  {
    var k := Index(s, Space);
    if k == -1 then [s] else [s[..k]] + Split(s[k + 1..])
  }

  /** Number of bytes in all the tokens together. */
  function TotalLength(ws: seq<Bytes>): nat {
    if |ws| == 0 then 0 else |ws[0]| + TotalLength(ws[1..])
  }

  /** `strings.Join(ws, " ")`: the tokens with one space between neighbours,
      so the result holds every token byte plus one separator per gap. */
  function Join(ws: seq<Bytes>): (s: Bytes)
    ensures |ws| == 0 ==> s == []
    ensures |ws| >= 1 ==> |s| == TotalLength(ws) + |ws| - 1
  {
    if |ws| == 0 then []
    else if |ws| == 1 then ws[0]
    else ws[0] + [Space] + Join(ws[1..])
  }

  /** Number of separators in a string. */
  function CountSpaces(s: Bytes): nat {
    if |s| == 0 then 0 else (if s[0] == Space then 1 else 0) + CountSpaces(s[1..])
  }

  lemma {:induction false} CountSpacesAppend(a: Bytes, b: Bytes)
    ensures CountSpaces(a + b) == CountSpaces(a) + CountSpaces(b)
  {
    if |a| == 0 {
      assert a + b == b;
    } else {
      assert (a + b)[1..] == a[1..] + b;
      CountSpacesAppend(a[1..], b);
    }
  }

  lemma {:induction false} CountSpacesNone(s: Bytes)
    requires Space !in s
    ensures CountSpaces(s) == 0
  {
    if |s| > 0 {
      assert Space !in s[1..];
      CountSpacesNone(s[1..]);
    }
  }

  /** Joining a token in front of a non-empty list puts one space after it. */
  lemma JoinCons(w: Bytes, ws: seq<Bytes>)
    requires |ws| >= 1
    ensures Join([w] + ws) == w + [Space] + Join(ws)
  {
    assert ([w] + ws)[1..] == ws;
  }

  /** A string is its prefix before the first space, the space, and the rest. */
  lemma CutAtIndex(s: Bytes, k: nat)
    requires k < |s| && s[k] == Space
    ensures s == s[..k] + [Space] + s[k + 1..]
  {
    assert s == s[..k] + s[k..];
    assert s[k..] == [Space] + s[k + 1..];
  }

  /** Splitting then joining gives back the original string exactly. */
  lemma {:induction false} JoinSplit(s: Bytes)
    ensures Join(Split(s)) == s
    decreases |s|
  {
    var k := Index(s, Space);
    if k != -1 {
      var rest := s[k + 1..];
      JoinSplit(rest);
      JoinCons(s[..k], Split(rest));
      CutAtIndex(s, k);
    }
  }

  /** The separator sits right after a space-free prefix. */
  lemma IndexAfterPrefix(a: Bytes, b: Bytes)
    requires Space !in a
    ensures Index(a + [Space] + b, Space) == |a|
  {
    var s := a + [Space] + b;
    assert s[|a|] == Space;
    assert forall i :: 0 <= i < |a| ==> s[i] == a[i];
  }

  /** A space-free prefix followed by a space splits off as the first token. */
  lemma SplitAtFirstSpace(a: Bytes, b: Bytes)
    requires Space !in a
    ensures Split(a + [Space] + b) == [a] + Split(b)
  {
    var s := a + [Space] + b;
    IndexAfterPrefix(a, b);
    assert s[..|a|] == a;
    assert s[|a| + 1..] == b;
  }

  /** Joining space-free tokens then splitting gives back the same tokens. */
  lemma {:induction false} SplitJoin(ws: seq<Bytes>)
    requires |ws| >= 1
    requires NoSpaces(ws)
    ensures Split(Join(ws)) == ws
  {
    if |ws| == 1 {
      assert Index(ws[0], Space) == -1;
    } else {
      assert ws == [ws[0]] + ws[1..];
      JoinCons(ws[0], ws[1..]);
      SplitAtFirstSpace(ws[0], Join(ws[1..]));
      SplitJoin(ws[1..]);
    }
  }

  /** The spaces of a string are the first one and those after it. */
  lemma CountSpacesCut(s: Bytes, k: nat)
    requires k == Index(s, Space)
    ensures CountSpaces(s) == 1 + CountSpaces(s[k + 1..])
  {
    var rest := s[k + 1..];
    CutAtIndex(s, k);
    CountSpacesAppend(s[..k], [Space] + rest);
    CountSpacesAppend([Space], rest);
    CountSpacesNone(s[..k]);
    assert s[..k] + [Space] + rest == s[..k] + ([Space] + rest);
  }

  /** There is one more token than there are spaces. */
  lemma {:induction false} SplitCount(s: Bytes)
    ensures |Split(s)| == CountSpaces(s) + 1
    decreases |s|
  {
    var k := Index(s, Space);
    if k == -1 {
      CountSpacesNone(s);
    } else {
      SplitCount(s[k + 1..]);
      CountSpacesCut(s, k);
    }
  }

  /** Joining shorter tokens gives a shorter string; strictly shorter as soon
      as one token is strictly shorter. */
  lemma {:induction false} JoinShrinks(vs: seq<Bytes>, ws: seq<Bytes>)
    requires |vs| == |ws|
    requires forall i :: 0 <= i < |ws| ==> |vs[i]| <= |ws[i]|
    ensures |Join(vs)| <= |Join(ws)|
    ensures (exists i :: 0 <= i < |ws| && |vs[i]| < |ws[i]|) ==> |Join(vs)| < |Join(ws)|
  {
    if |ws| > 1 {
      JoinShrinks(vs[1..], ws[1..]);
      if exists i :: 0 <= i < |ws| && |vs[i]| < |ws[i]| {
        var i :| 0 <= i < |ws| && |vs[i]| < |ws[i]|;
        if i > 0 {
          assert |vs[1..][i - 1]| < |ws[1..][i - 1]|;
        }
      }
    }
  }
}
