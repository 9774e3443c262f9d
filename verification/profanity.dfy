/** Chirp validation: the 140-byte length limit and the profanity mask.

A chirp body is split on single spaces; a token whose lower-cased form is
exactly one of the denylisted words is replaced by four asterisks; the tokens
are joined back with single spaces. Nothing else about the body changes.
 */
module Profanity {
  import opened Text
  import opened Words

  /** The denylist, in its source order. */
  const ProfaneWords: seq<Bytes> := ["kerfuffle", "sharbert", "fornax"]

  /** What a denylisted token is replaced with. */
  const Mask: Bytes := "****"

  /** Longest accepted body, in bytes, before cleaning. */
  const MaxChirpLength: nat := 140

  /** A token is profane when its lower-cased form is exactly a denylisted word. */
  predicate IsProfane(w: Bytes) {
    ToLower(w) in ProfaneWords
  }

  /** Whether a token is profane does not depend on its case. */
  lemma ProfaneIgnoresCase(w: Bytes)
    ensures IsProfane(ToLower(w)) <==> IsProfane(w)
  {
    ToLowerIdempotent(w);
  }

  /** Cleaning one token: it is replaced exactly when it is profane, and then
      only by the mask. */
  function CleanWord(w: Bytes): (r: Bytes)
    ensures r == w || r == Mask
    ensures r != w <==> IsProfane(w)
    ensures |r| <= |w|
    ensures !IsProfane(r)
  {
    if IsProfane(w) then Mask else w
  }

  /** The cleaning loop, one token at a time: same number of tokens, each
      cleaned on its own, and no separator introduced. */
  function CleanAll(ws: seq<Bytes>): (vs: seq<Bytes>)
    ensures |vs| == |ws|
    ensures forall i :: 0 <= i < |ws| ==> vs[i] == CleanWord(ws[i])
    ensures NoSpaces(ws) ==> NoSpaces(vs)
  {
    seq(|ws|, i requires 0 <= i < |ws| => CleanWord(ws[i]))
  }

  /** Cleaning a whole chirp body: split on spaces, clean each token, join
      with spaces. The result splits back into exactly the cleaned tokens of
      the input and is never longer than the input. */
  function Clean(s: Bytes): (r: Bytes)
    ensures Split(r) == CleanAll(Split(s))
    ensures |r| <= |s|
  {
    var ws := Split(s);
    var vs := CleanAll(ws);
    SplitJoin(vs);
    JoinShrinks(vs, ws);
    JoinSplit(s);
    Join(vs)
  }

  /** No space-separated token of `s` is profane. */
  predicate NoProfaneTokens(s: Bytes) {
    forall i :: 0 <= i < |Split(s)| ==> !IsProfane(Split(s)[i])
  }

  /** The cleaned body splits into the cleaned tokens of the original: the
      token count is preserved and token `i` of the result is token `i` of the
      input, unchanged or masked. */
  lemma CleanTokens(s: Bytes)
    ensures |Split(Clean(s))| == |Split(s)|
    ensures forall i :: 0 <= i < |Split(s)| ==>
      (Split(Clean(s))[i] == Split(s)[i] || Split(Clean(s))[i] == Mask)
  {
  }

  /** A token of the input is masked in the output iff it is profane. */
  lemma MaskedIffProfane(s: Bytes, i: nat)
    requires i < |Split(s)|
    ensures i < |Split(Clean(s))|
    ensures Split(Clean(s))[i] != Split(s)[i] <==> IsProfane(Split(s)[i])
    ensures IsProfane(Split(s)[i]) ==> Split(Clean(s))[i] == Mask
  {
    CleanTokens(s);
  }

  /** Cleaning is the identity exactly on bodies with no profane token,
      keeping case, empty tokens and every space as they were. */
  lemma CleanIdentity(s: Bytes)
    ensures Clean(s) == s <==> NoProfaneTokens(s)
  {
    var ws := Split(s);
    CleanTokens(s);
    if NoProfaneTokens(s) {
      assert CleanAll(ws) == ws;
      JoinSplit(s);
    }
    if Clean(s) == s {
      forall i | 0 <= i < |ws|
        ensures !IsProfane(ws[i])
      {
        assert CleanAll(ws)[i] == ws[i];
      }
    }
  }

  /** Nothing profane survives cleaning. */
  lemma CleanRemovesProfanity(s: Bytes)
    ensures NoProfaneTokens(Clean(s))
  {
    CleanTokens(s);
  }

  /** Cleaning a cleaned body changes nothing: the mask is not denylisted. */
  lemma CleanIdempotent(s: Bytes)
    ensures Clean(Clean(s)) == Clean(s)
  {
    CleanRemovesProfanity(s);
    CleanIdentity(Clean(s));
  }

  /** Masking one profane token makes the joined tokens strictly shorter. */
  lemma {:induction false} CleanAllShorter(ws: seq<Bytes>, i: nat)
    requires i < |ws| && IsProfane(ws[i])
    ensures |Join(CleanAll(ws))| < |Join(ws)|
  {
    var vs := CleanAll(ws);
    assert |vs[i]| < |ws[i]|;
    JoinShrinks(vs, ws);
  }

  /** A body in which something was masked comes back strictly shorter. */
  lemma {:induction false} CleanShorterWhenMasked(s: Bytes)
    requires !NoProfaneTokens(s)
    ensures |Clean(s)| < |s|
  {
    var ws := Split(s);
    var i :| 0 <= i < |ws| && IsProfane(ws[i]);
    CleanAllShorter(ws, i);
    JoinSplit(s);
  }

  /** Cleaning never lengthens a body, and shortens it exactly when it masks
      something. */
  lemma {:induction false} CleanShrinks(s: Bytes)
    ensures |Clean(s)| <= |s|
    ensures |Clean(s)| < |s| <==> !NoProfaneTokens(s)
  {
    if !NoProfaneTokens(s) {
      CleanShorterWhenMasked(s);
    }
    CleanIdentity(s);
  }

  /** No denylisted word occurs inside a longer one: "fornax" has an `o`
      that neither longer word has, and "sharbert" an `s` that "kerfuffle"
      lacks. */
  lemma NoProfaneWordInsideAnother(p: Bytes, q: Bytes, k: nat)
    requires p in ProfaneWords && q in ProfaneWords
    requires |p| < |q| && k + |p| <= |q|
    ensures q[k..k + |p|] != p
  {
    var c := if |p| == 6 then 1 else 0;
    assert p[c] !in q;
    assert q[k..k + |p|][c] == q[k + c];
  }

  /** Only whole tokens are masked: a denylisted word with anything attached
      on either side or both (a longer word, punctuation, brackets) is not
      profane. */
  lemma OnlyExactMatches(a: Bytes, w: Bytes, b: Bytes)
    requires IsProfane(w)
    requires |a| + |b| > 0
    ensures !IsProfane(a + w + b)
  {
    ToLowerAppend(a, w);
    ToLowerAppend(a + w, b);
    var p := ToLower(w);
    var q := ToLower(a + w + b);
    assert q == ToLower(a) + p + ToLower(b);
    assert q[|a|..|a| + |p|] == p;
    if q in ProfaneWords {
      NoProfaneWordInsideAnother(p, q, |a|);
    }
  }

  /** The verdict of the length check. */
  datatype Verdict = TooLong | Valid(cleaned: Bytes)

  /** The length check followed by cleaning: over-long bodies are rejected
      before any cleaning; an accepted body comes back cleaned, within the
      limit, and free of profane tokens. */
  function Validate(body: Bytes): (v: Verdict)
    ensures v.TooLong? <==> |body| > MaxChirpLength
    ensures v.Valid? ==> v.cleaned == Clean(body)
    ensures v.Valid? ==> |v.cleaned| <= |body| <= MaxChirpLength
    ensures v.Valid? ==> NoProfaneTokens(v.cleaned)
    ensures v.Valid? ==> Clean(v.cleaned) == v.cleaned
    ensures v.Valid? && NoProfaneTokens(body) ==> v.cleaned == body
  {
    if |body| > MaxChirpLength then TooLong
    else
      CleanShrinks(body);
      CleanRemovesProfanity(body);
      CleanIdempotent(body);
      CleanIdentity(body);
      Valid(Clean(body))
  }

  /** The handler's loop over the tokens: lower-case each one, compare it with
      each denylisted word in turn, and on the first match overwrite it with
      the mask and stop comparing. */
  method CleanTokensLoop(words: seq<Bytes>) returns (out: seq<Bytes>)
    ensures out == CleanAll(words)
  {
    out := words;
    var i := 0;
    while i < |out|
      invariant |out| == |words|
      invariant 0 <= i <= |out|
      invariant forall j :: 0 <= j < i ==> out[j] == CleanWord(words[j])
      invariant forall j :: i <= j < |out| ==> out[j] == words[j]
    {
      var lower := ToLower(out[i]);
      var k := 0;
      while k < |ProfaneWords|
        invariant 0 <= k <= |ProfaneWords|
        invariant lower !in ProfaneWords[..k]
        invariant out[i] == words[i]
      {
        if lower == ProfaneWords[k] {
          out := out[i := Mask];
          break;
        }
        k := k + 1;
      }
      assert k == |ProfaneWords| ==> ProfaneWords[..k] == ProfaneWords;
      i := i + 1;
    }
  }
}
