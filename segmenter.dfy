/**
 * `splitTextIntoSegments` (background.js): the text is cut into sentence fragments by the
 * zero-width split `/(?<=[.!?。！？]\s)/g`, and the fragments are packed greedily into
 * buffers of at most `maxLength` code units; each buffer is emitted trimmed.
 */
module Segmenter {
  import opened Strings

  /** The default of `maxLength`, the only value the coordinator uses. */
  const DefaultMaxLength: int := 1500

  /** The sentence-ending marks of the character class `[.!?。！？]`. */
  predicate IsMark(c: char) {
    c == '.' || c == '!' || c == '?' || c == '。' || c == '！' || c == '？'
  }

  /** The lookbehind `(?<=[.!?。！？]\s)` matches at position `q` of `s`. */
  predicate LookbehindAt(s: string, q: int) {
    2 <= q <= |s| && IsMark(s[q - 2]) && IsSpace(s[q - 1])
  }

  /** The positions where `split` cuts: the pattern matches there and the position lies
      strictly inside the string (the split loop never tries position `|s|`, and a match
      at the start of the current fragment is skipped). */
  predicate IsCut(s: string, q: int) {
    0 < q < |s| && LookbehindAt(s, q)
  }

  /** The loop of `RegExp.prototype[@@split]` for this pattern: `p` is where the current
      fragment began, `q` the next position at which the pattern is tried. */
  function SplitFrom(s: string, p: nat, q: nat): seq<string>
    requires p <= q <= |s|
    decreases |s| - q
  {
    if q == |s| then [s[p..]]
    else if q > p && IsCut(s, q) then [s[p..q]] + SplitFrom(s, q, q + 1)
    else SplitFrom(s, p, q + 1)
  }

  /** `text.split(/(?<=[.!?。！？]\s)/g)`; the empty string gives `[""]`. */
  function Fragments(s: string): seq<string>
  {
    SplitFrom(s, 0, 0)
  }

  /** A fragment that a cut closed: it ends with a mark and then one whitespace unit. */
  predicate EndsSentence(f: string) {
    LookbehindAt(f, |f|)
  }

  /** No position strictly inside the fragment would have been a cut. */
  predicate NoInnerCut(f: string) {
    forall j :: 2 <= j < |f| ==> !LookbehindAt(f, j)
  }

  /** The shape of a sentence split of `s`: its pieces concatenate to `s`, are non-empty
      when `s` is, every piece but the last was closed by a cut, and no piece has a cut
      inside it. */
  predicate IsSentenceSplit(s: string, fs: seq<string>) {
    && |fs| >= 1
    && Concat(fs) == s
    && (s != "" ==> forall i :: 0 <= i < |fs| ==> fs[i] != "")
    && (forall i :: 0 <= i < |fs| - 1 ==> EndsSentence(fs[i]))
    && (forall i :: 0 <= i < |fs| ==> NoInnerCut(fs[i]))
  }

  lemma {:induction false} SplitFromShape(s: string, p: nat, q: nat)
    requires p <= q <= |s|
    requires p == 0 || !IsMark(s[p - 1])
    requires forall k :: p < k < q ==> !IsCut(s, k)
    ensures IsSentenceSplit(s[p..], SplitFrom(s, p, q))
    decreases |s| - q
  {
    var fs := SplitFrom(s, p, q);
    if q == |s| {
      var f := s[p..];
      assert fs == [f];
      forall j | 2 <= j < |f| ensures !LookbehindAt(f, j) {
        assert !IsCut(s, p + j);
        assert f[j - 2] == s[p + j - 2] && f[j - 1] == s[p + j - 1];
      }
      assert Concat(fs) == f + Concat([]);
    } else if q > p && IsCut(s, q) {
      var f := s[p..q];
      var rest := SplitFrom(s, q, q + 1);
      assert !IsMark(s[q - 1]);
      SplitFromShape(s, q, q + 1);
      assert fs == [f] + rest;
      assert IsMark(s[q - 2]);
      assert q >= p + 2;
      assert EndsSentence(f) by {
        assert f[|f| - 2] == s[q - 2] && f[|f| - 1] == s[q - 1];
      }
      forall j | 2 <= j < |f| ensures !LookbehindAt(f, j) {
        assert !IsCut(s, p + j);
        assert f[j - 2] == s[p + j - 2] && f[j - 1] == s[p + j - 1];
      }
      assert s[p..] == f + s[q..];
      assert Concat(fs) == f + Concat(rest);
      assert forall i :: 1 <= i < |fs| ==> fs[i] == rest[i - 1];
    } else {
      SplitFromShape(s, p, q + 1);
    }
  }

  /** The split of the source has the shape of a sentence split. */
  lemma FragmentsShape(s: string)
    ensures IsSentenceSplit(s, Fragments(s))
  {
    SplitFromShape(s, 0, 0);
  }

  /** Trying the pattern at positions where it cannot cut changes nothing. */
  lemma {:induction false} SplitFromSkip(s: string, p: nat, q: nat, q': nat)
    requires p <= q <= q' <= |s|
    requires forall k :: q <= k < q' ==> !(k > p && IsCut(s, k))
    ensures SplitFrom(s, p, q) == SplitFrom(s, p, q')
    decreases q' - q
  {
    if q < q' {
      SplitFromSkip(s, p, q + 1, q');
    }
  }

  /** The first piece of a sentence split of `s[p..]` is a prefix with no cut inside. */
  lemma FirstPiece(s: string, p: nat, fs: seq<string>)
    requires p < |s|
    requires p == 0 || !IsMark(s[p - 1])
    requires IsSentenceSplit(s[p..], fs)
    ensures p + |fs[0]| <= |s| && s[p..p + |fs[0]|] == fs[0]
    ensures forall k :: p < k < p + |fs[0]| ==> !IsCut(s, k)
  {
    var f := fs[0];
    var c := p + |f|;
    assert Concat(fs) == f + Concat(fs[1..]);
    assert s[p..] == f + Concat(fs[1..]);
    assert s[p..c] == s[p..][..|f|] == f;
    forall k | p < k < c ensures !IsCut(s, k) {
      if k >= p + 2 {
        assert f[k - p - 2] == s[k - 2] && f[k - p - 1] == s[k - 1];
        assert !LookbehindAt(f, k - p);
      }
    }
  }

  /** The pieces after the first one form a sentence split of the rest of the text. */
  lemma RestPieces(s: string, p: nat, fs: seq<string>)
    requires p < |s| && |fs| > 1
    requires IsSentenceSplit(s[p..], fs)
    ensures p + |fs[0]| < |s|
    ensures IsSentenceSplit(s[p + |fs[0]|..], fs[1..])
  {
    var rest := fs[1..];
    assert Concat(fs) == fs[0] + Concat(rest);
    assert rest[0] == fs[1] && rest[0] != "";
    assert Concat(rest) == rest[0] + Concat(rest[1..]);
    assert s[p + |fs[0]|..] == s[p..][|fs[0]|..];
    forall i | 0 <= i < |rest| - 1 ensures EndsSentence(rest[i]) { assert rest[i] == fs[i + 1]; }
    forall i | 0 <= i < |rest| ensures NoInnerCut(rest[i]) && rest[i] != "" { assert rest[i] == fs[i + 1]; }
  }

  lemma {:induction false} SplitFromUnique(s: string, p: nat, fs: seq<string>)
    requires p < |s|
    requires p == 0 || !IsMark(s[p - 1])
    requires IsSentenceSplit(s[p..], fs)
    ensures SplitFrom(s, p, p) == fs
    decreases |fs|
  {
    var f := fs[0];
    var c := p + |f|;
    FirstPiece(s, p, fs);
    if |fs| == 1 {
      assert Concat(fs) == f + Concat(fs[1..]);
      assert c == |s|;
      SplitFromSkip(s, p, p, |s|);
      assert s[p..c] == s[p..];
      assert fs == [f];
    } else {
      SplitFromNext(s, p, fs);
      SplitFromUnique(s, c, fs[1..]);
      assert fs == [f] + fs[1..];
    }
  }

  /** A split of `s[p..]` into several pieces: the first piece ends at a cut, where the
      split of `s` from `p` closes it and starts over. */
  lemma SplitFromNext(s: string, p: nat, fs: seq<string>)
    requires p < |s| && |fs| > 1
    requires p == 0 || !IsMark(s[p - 1])
    requires IsSentenceSplit(s[p..], fs)
    ensures var c := p + |fs[0]|;
      && c < |s| && !IsMark(s[c - 1])
      && IsSentenceSplit(s[c..], fs[1..])
      && SplitFrom(s, p, p) == [fs[0]] + SplitFrom(s, c, c)
  {
    var f := fs[0];
    var c := p + |f|;
    FirstPiece(s, p, fs);
    RestPieces(s, p, fs);
    assert EndsSentence(f);
    assert f[|f| - 2] == s[c - 2] && f[|f| - 1] == s[c - 1];
    assert IsCut(s, c);
    SplitFromSkip(s, p, p, c);
    assert SplitFrom(s, p, c) == [f] + SplitFrom(s, c, c + 1);
    SplitFromSkip(s, c, c, c + 1);
  }

  /** The split is the only sentence split of a non-empty text: the shape above determines
      it, so the cut positions are exactly the positions inside the text preceded by a mark
      and one whitespace unit. */
  lemma FragmentsUnique(s: string, fs: seq<string>)
    requires s != ""
    requires IsSentenceSplit(s, fs)
    ensures Fragments(s) == fs
  {
    assert s[0..] == s;
    SplitFromUnique(s, 0, fs);
  }

  /** The greedy packing loop: `current` is the buffer being filled. A fragment that does
      not fit closes the buffer (if it is non-empty) and starts the next one on its own. */
  function Pack(fragments: seq<string>, current: string, maxLength: int): seq<string>
    decreases |fragments|
  {
    if fragments == [] then
      (if current == "" then [] else [current])
    else if |current + fragments[0]| <= maxLength then
      Pack(fragments[1..], current + fragments[0], maxLength)
    else
      (if current == "" then [] else [current]) + Pack(fragments[1..], fragments[0], maxLength)
  }

  /** The untrimmed buffers `splitTextIntoSegments` emits, in order. */
  function Buffers(text: string, maxLength: int): seq<string>
  {
    Pack(Fragments(text), "", maxLength)
  }

  /** Each buffer trimmed, in order. */
  function TrimAll(buffers: seq<string>): (r: seq<string>)
    ensures |r| == |buffers|
    ensures forall i :: 0 <= i < |r| ==> r[i] == Trim(buffers[i])
  {
    if buffers == [] then []
    else
      var n := |buffers| - 1;
      var r := TrimAll(buffers[..n]) + [Trim(buffers[n])];
      assert forall i :: 0 <= i < n ==> buffers[..n][i] == buffers[i];
      r
  }

  /** Concatenating the buffers gives back the packed text. */
  lemma {:induction false} PackConcat(fragments: seq<string>, current: string, maxLength: int)
    ensures Concat(Pack(fragments, current, maxLength)) == current + Concat(fragments)
    decreases |fragments|
  {
    if fragments == [] {
      assert Concat([current]) == current + Concat([]);
    } else {
      var f := fragments[0];
      assert Concat(fragments) == f + Concat(fragments[1..]);
      if |current + f| <= maxLength {
        PackConcat(fragments[1..], current + f, maxLength);
      } else {
        PackConcat(fragments[1..], f, maxLength);
        var head := if current == "" then [] else [current];
        ConcatAppend(head, Pack(fragments[1..], f, maxLength));
        assert Concat([current]) == current + Concat([]);
      }
    }
  }

  /** Only non-empty buffers are emitted. */
  lemma {:induction false} PackNonEmpty(fragments: seq<string>, current: string, maxLength: int)
    ensures forall i :: 0 <= i < |Pack(fragments, current, maxLength)| ==> Pack(fragments, current, maxLength)[i] != ""
    decreases |fragments|
  {
    if fragments != [] {
      var f := fragments[0];
      if |current + f| <= maxLength {
        PackNonEmpty(fragments[1..], current + f, maxLength);
      } else {
        PackNonEmpty(fragments[1..], f, maxLength);
      }
    }
  }

  /** A buffer is longer than `maxLength` only when it is one fragment of `pool` alone. */
  lemma {:induction false} PackBound(fragments: seq<string>, current: string, maxLength: int, pool: seq<string>)
    requires current == "" || |current| <= maxLength || current in pool
    requires forall i :: 0 <= i < |fragments| ==> fragments[i] in pool
    ensures forall b :: b in Pack(fragments, current, maxLength) ==> |b| <= maxLength || b in pool
    decreases |fragments|
  {
    if fragments != [] {
      var f := fragments[0];
      assert f in pool;
      if |current + f| <= maxLength {
        PackBound(fragments[1..], current + f, maxLength, pool);
      } else {
        PackBound(fragments[1..], f, maxLength, pool);
      }
    }
  }

  /** What the buffers of `splitTextIntoSegments` are: together they are the text, none is
      empty, and each is at most `maxLength` long unless it is a single fragment of the
      sentence split that alone exceeds the bound. */
  lemma BuffersProperties(text: string, maxLength: int)
    ensures Concat(Buffers(text, maxLength)) == text
    ensures forall i :: 0 <= i < |Buffers(text, maxLength)| ==> Buffers(text, maxLength)[i] != ""
    ensures forall b :: b in Buffers(text, maxLength) ==> |b| <= maxLength || b in Fragments(text)
  {
    FragmentsShape(text);
    PackConcat(Fragments(text), "", maxLength);
    PackNonEmpty(Fragments(text), "", maxLength);
    PackBound(Fragments(text), "", maxLength, Fragments(text));
  }

  /** The empty text gives no segment at all. */
  lemma SegmentsOfEmpty(maxLength: int)
    ensures TrimAll(Buffers("", maxLength)) == []
  {
    assert Fragments("") == [""];
    assert Pack([""], "", maxLength) == [];
  }

  /** A non-empty text of whitespace only gives one empty segment: its single buffer is
      non-empty before trimming and empty after. */
  lemma SegmentsOfWhitespace(text: string, maxLength: int)
    requires text != "" && AllSpace(text)
    ensures TrimAll(Buffers(text, maxLength)) == [""]
  {
    var fs := [text];
    assert Concat(fs) == text + Concat([]);
    assert NoInnerCut(text) by {
      forall j | 2 <= j < |text| ensures !LookbehindAt(text, j) {
        assert IsSpace(text[j - 2]);
      }
    }
    FragmentsUnique(text, fs);
    assert fs == [text];
    assert "" + text == text && fs[1..] == [];
    assert Pack(fs, "", maxLength) == [text];
  }

  /** One step of the packing loop over `fragments[i]`. */
  lemma PackStep(fragments: seq<string>, i: nat, current: string, maxLength: int)
    requires i < |fragments|
    ensures |current + fragments[i]| <= maxLength ==>
      Pack(fragments[i..], current, maxLength) == Pack(fragments[i + 1..], current + fragments[i], maxLength)
    ensures |current + fragments[i]| > maxLength ==>
      Pack(fragments[i..], current, maxLength)
      == (if current == "" then [] else [current]) + Pack(fragments[i + 1..], fragments[i], maxLength)
  {
    assert fragments[i..][0] == fragments[i] && fragments[i..][1..] == fragments[i + 1..];
  }

  /** Closing the buffer `current` of the packing loop. */
  lemma Emit(emitted: seq<string>, current: string, tail: seq<string>)
    ensures emitted + ([current] + tail) == (emitted + [current]) + tail
    ensures TrimAll(emitted + [current]) == TrimAll(emitted) + [Trim(current)]
  {
    assert (emitted + [current])[..|emitted|] == emitted;
  }

  /** `splitTextIntoSegments(text, maxLength)`. */
  method SplitTextIntoSegments(text: string, maxLength: int) returns (segments: seq<string>)
    ensures segments == TrimAll(Buffers(text, maxLength))
  {
    segments := [];
    var sentences := Fragments(text);
    var current := "";
    ghost var buffers := Buffers(text, maxLength);
    ghost var emitted: seq<string> := [];
    assert sentences[0..] == sentences;
    for i := 0 to |sentences|
      invariant buffers == emitted + Pack(sentences[i..], current, maxLength)
      invariant segments == TrimAll(emitted)
    {
      var sentence := sentences[i];
      PackStep(sentences, i, current, maxLength);
      if |current + sentence| <= maxLength {
        current := current + sentence;
      } else {
        ghost var tail := Pack(sentences[i + 1..], sentence, maxLength);
        if current != "" {
          Emit(emitted, current, tail);
          emitted := emitted + [current];
          segments := segments + [Trim(current)];
        } else {
          assert [] + tail == tail;
        }
        current := sentence;
      }
    }
    assert sentences[|sentences|..] == [];
    if current != "" {
      Emit(emitted, current, []);
      emitted := emitted + [current];
      segments := segments + [Trim(current)];
    }
  }
}
