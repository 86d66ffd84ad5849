/**
  `subParseCustomLocations`: a left-to-right scan of a document's text that
  replaces each occurrence of `http-responses-v2.yaml` by its canonical URL,
  except where the occurrence directly follows a `/`. `bundleFileWithRefs`
  defines it but never calls it.

  `Rewrite` is the reference definition of the scan; the method follows the
  splice loop of `bundle.ts` over a growing string and is proved to compute it.
 */
module Splice {
  import opened Strings
  import opened LocationTable

  /** The flag the scan carries: is the last character emitted so far a `/`? */
  function LastIsSlash(piece: string, before: bool): bool {
    if |piece| == 0 then before else piece[|piece| - 1] == '/'
  }

  /**
    The scan over the original text `s`. An occurrence of `key` at the scan
    position is replaced by `value` unless the character emitted just before it
    is a `/` (`slashBefore`), in which case it is kept; the scan then resumes
    after the occurrence. Any other character is copied.
   */
  function Rewrite(s: string, key: string, value: string, slashBefore: bool): string
    requires |key| > 0
    decreases |s|
  {
    if |s| == 0 then ""
    else if OccursAt(s, key, 0) then
      var piece := if slashBefore then key else value;
      piece + Rewrite(s[|key|..], key, value, LastIsSlash(piece, slashBefore))
    else [s[0]] + Rewrite(s[1..], key, value, s[0] == '/')
  }

  /**
    Shapes of key and value for which the scan's verdicts can be read off the
    original text: the key's first character occurs nowhere else in it (so no two
    occurrences overlap), and neither the key nor the value ends with `/`.
   */
  predicate SpliceSafe(key: string, value: string) {
    && |key| > 0
    && |value| > 0
    && (forall d :: 0 < d < |key| ==> key[d] != key[0])
    && key[|key| - 1] != '/'
    && value[|value| - 1] != '/'
  }

  /** Text with no occurrence of the key comes out unchanged. */
  lemma {:induction false} RewriteWithoutKey(s: string, key: string, value: string, b: bool)
    requires |key| > 0
    requires forall k :: 0 <= k ==> !OccursAt(s, key, k)
    ensures Rewrite(s, key, value, b) == s
    decreases |s|
  {
    if |s| > 0 {
      assert !OccursAt(s, key, 0);
      forall k | 0 <= k ensures !OccursAt(s[1..], key, k) {
        OccursInSuffix(s, key, 1, k);
      }
      RewriteWithoutKey(s[1..], key, value, s[0] == '/');
      assert [s[0]] + s[1..] == s;
    }
  }

  /** One step of the scan over a character that does not start an occurrence. */
  lemma RewriteCopyStep(s: string, key: string, value: string, b: bool)
    requires |key| > 0 && |s| > 0 && !OccursAt(s, key, 0)
    ensures Rewrite(s, key, value, b) == [s[0]] + Rewrite(s[1..], key, value, s[0] == '/')
  {
  }

  /** Up to the first occurrence at `q`, the scan copies the text and arrives with the flag the text gives. */
  lemma {:induction false} RewriteCopiesPlain(t: string, key: string, value: string, b: bool, q: int)
    requires |key| > 0
    requires 0 <= q <= |t|
    requires forall k :: 0 <= k < q ==> !OccursAt(t, key, k)
    ensures Rewrite(t, key, value, b) ==
      t[..q] + Rewrite(t[q..], key, value, if q == 0 then b else t[q - 1] == '/')
    decreases q
  {
    if q == 0 {
      assert t[..0] + t[0..] == t[0..] == t;
    } else {
      assert !OccursAt(t, key, 0);
      RewriteCopyStep(t, key, value, b);
      var t' := t[1..];
      forall k | 0 <= k < q - 1 ensures !OccursAt(t', key, k) {
        OccursInSuffix(t, key, 1, k);
      }
      var f := if q - 1 == 0 then t[0] == '/' else t'[q - 2] == '/';
      RewriteCopiesPlain(t', key, value, t[0] == '/', q - 1);
      assert f == (t[q - 1] == '/');
      assert t'[q - 1..] == t[q..];
      assert [t[0]] + t'[..q - 1] == t[..q];
      calc {
        Rewrite(t, key, value, b);
        [t[0]] + Rewrite(t', key, value, t[0] == '/');
        [t[0]] + (t'[..q - 1] + Rewrite(t'[q - 1..], key, value, f));
        ([t[0]] + t'[..q - 1]) + Rewrite(t[q..], key, value, f);
      }
    }
  }

  /** What an occurrence of the key turns into: kept after a `/`, replaced otherwise. */
  function Piece(key: string, value: string, slashBefore: bool): string {
    if slashBefore then key else value
  }

  /** One step of the scan over an occurrence of the key. */
  lemma RewriteKeyStep(s: string, key: string, value: string, b: bool)
    requires SpliceSafe(key, value) && OccursAt(s, key, 0)
    ensures Rewrite(s, key, value, b) == Piece(key, value, b) + Rewrite(s[|key|..], key, value, false)
  {
  }

  /** Under `SpliceSafe` no two occurrences of the key overlap. */
  lemma OccurrencesApart(s: string, key: string, value: string, i: int, k: int)
    requires SpliceSafe(key, value)
    requires OccursAt(s, key, i) && OccursAt(s, key, k) && i < k
    ensures i + |key| <= k
  {
    forall j | i < j < i + |key| ensures s[j] != key[0] {
      assert s[j] == s[i..i + |key|][j - i] == key[j - i];
    }
    assert s[k] == s[k..k + |key|][0] == key[0];
  }

  /** `a + b + c` regrouped, for concatenations the solver would otherwise unfold. */
  lemma ConcatAssoc(a: string, b: string, c: string, d: string)
    ensures a + (b + c + d) == (a + b) + c + d
  {
  }

  /** The flag the scan has on reaching position `i` of `s`, given the flag `b` at its start. */
  function FlagAt(s: string, i: int, b: bool): bool
    requires 0 <= i <= |s|
  {
    if i == 0 then b else s[i - 1] == '/'
  }

  /**
    Every occurrence of the key splits the result: the text before it is
    scanned on its own, the occurrence itself becomes `value` when it is at the
    start or not preceded by `/` and stays as it is when preceded by `/`, and the
    text after it is scanned afresh.
   */
  lemma {:induction false} RewriteAtOccurrence(s: string, key: string, value: string, b: bool, i: int)
    requires SpliceSafe(key, value)
    requires OccursAt(s, key, i)
    ensures Rewrite(s, key, value, b) ==
      Rewrite(s[..i], key, value, b) + Piece(key, value, FlagAt(s, i, b)) + Rewrite(s[i + |key|..], key, value, false)
    decreases |s|, 2
  {
    if i == 0 {
      RewriteKeyStep(s, key, value, b);
      assert s[..0] == [];
    } else if OccursAt(s, key, 0) {
      OccurrenceAfterKey(s, key, value, b, i);
    } else {
      OccurrenceAfterChar(s, key, value, b, i);
    }
  }

  /** The key starts a prefix `s[..i]` exactly when it starts `s` and fits in the prefix. */
  lemma OccursInPrefix(s: string, key: string, i: int)
    requires 0 <= i <= |s|
    ensures OccursAt(s[..i], key, 0) <==> |key| <= i && OccursAt(s, key, 0)
  {
    if |key| <= i {
      assert s[..i][..|key|] == s[..|key|];
    }
  }

  /** The scan of a prefix that starts with the key. */
  lemma PrefixKeyStep(s: string, key: string, value: string, b: bool, i: int)
    requires SpliceSafe(key, value)
    requires OccursAt(s, key, 0) && |key| <= i <= |s|
    ensures Rewrite(s[..i], key, value, b) == Piece(key, value, b) + Rewrite(s[|key|..][..i - |key|], key, value, false)
  {
    OccursInPrefix(s, key, i);
    RewriteKeyStep(s[..i], key, value, b);
    assert s[..i][|key|..] == s[|key|..][..i - |key|];
  }

  /** The scan of a prefix that starts with a copied character. */
  lemma PrefixCopyStep(s: string, key: string, value: string, b: bool, i: int)
    requires |key| > 0
    requires !OccursAt(s, key, 0) && 0 < i <= |s|
    ensures Rewrite(s[..i], key, value, b) == [s[0]] + Rewrite(s[1..][..i - 1], key, value, s[0] == '/')
  {
    OccursInPrefix(s, key, i);
    RewriteCopyStep(s[..i], key, value, b);
    assert s[..i][1..] == s[1..][..i - 1];
  }

  /** An occurrence at `i` seen from the suffix `s[d..]`: where it sits and what follows it. */
  lemma ShiftOccurrence(s: string, key: string, d: int, i: int)
    requires 0 <= d <= i && OccursAt(s, key, i)
    ensures OccursAt(s[d..], key, i - d)
    ensures s[d..][i - d + |key|..] == s[i + |key|..]
  {
    OccursInSuffix(s, key, d, i - d);
  }

  /** The induction step of `RewriteAtOccurrence` past a leading occurrence, stated on the rest of the text. */
  lemma {:induction false} TailAfterKey(s: string, key: string, value: string, i: int)
    requires SpliceSafe(key, value)
    requires OccursAt(s, key, 0) && OccursAt(s, key, i) && |key| <= i
    ensures Rewrite(s[|key|..], key, value, false) ==
      Rewrite(s[|key|..][..i - |key|], key, value, false)
      + Piece(key, value, s[i - 1] == '/') + Rewrite(s[i + |key|..], key, value, false)
    decreases |s|, 0
  {
    ShiftOccurrence(s, key, |key|, i);
    assert FlagAt(s[|key|..], i - |key|, false) == (s[i - 1] == '/') by {
      if i == |key| {
        assert s[i - 1] == s[..|key|][|key| - 1] == key[|key| - 1];
      } else {
        assert s[|key|..][i - |key| - 1] == s[i - 1];
      }
    }
    RewriteAtOccurrence(s[|key|..], key, value, false, i - |key|);
  }

  /** The induction step of `RewriteAtOccurrence` past a copied character, stated on the rest of the text. */
  lemma {:induction false} TailAfterChar(s: string, key: string, value: string, i: int)
    requires SpliceSafe(key, value)
    requires OccursAt(s, key, i) && 0 < i
    ensures Rewrite(s[1..], key, value, s[0] == '/') ==
      Rewrite(s[1..][..i - 1], key, value, s[0] == '/')
      + Piece(key, value, s[i - 1] == '/') + Rewrite(s[i + |key|..], key, value, false)
    decreases |s|, 0
  {
    ShiftOccurrence(s, key, 1, i);
    assert FlagAt(s[1..], i - 1, s[0] == '/') == (s[i - 1] == '/') by {
      if i > 1 {
        assert s[1..][i - 2] == s[i - 1];
      }
    }
    RewriteAtOccurrence(s[1..], key, value, s[0] == '/', i - 1);
  }

  /** `RewriteAtOccurrence` for a later occurrence when the text starts with the key. */
  lemma {:induction false} OccurrenceAfterKey(s: string, key: string, value: string, b: bool, i: int)
    requires SpliceSafe(key, value)
    requires OccursAt(s, key, 0) && OccursAt(s, key, i) && 0 < i
    ensures Rewrite(s, key, value, b) ==
      Rewrite(s[..i], key, value, b) + Piece(key, value, FlagAt(s, i, b)) + Rewrite(s[i + |key|..], key, value, false)
    decreases |s|, 1
  {
    OccurrencesApart(s, key, value, 0, i);
    RewriteKeyStep(s, key, value, b);
    PrefixKeyStep(s, key, value, b, i);
    TailAfterKey(s, key, value, i);
    ConcatAssoc(Piece(key, value, b), Rewrite(s[|key|..][..i - |key|], key, value, false),
      Piece(key, value, s[i - 1] == '/'), Rewrite(s[i + |key|..], key, value, false));
  }

  /** `RewriteAtOccurrence` for a later occurrence when the text starts with a copied character. */
  lemma {:induction false} OccurrenceAfterChar(s: string, key: string, value: string, b: bool, i: int)
    requires SpliceSafe(key, value)
    requires !OccursAt(s, key, 0) && OccursAt(s, key, i) && 0 < i
    ensures Rewrite(s, key, value, b) ==
      Rewrite(s[..i], key, value, b) + Piece(key, value, FlagAt(s, i, b)) + Rewrite(s[i + |key|..], key, value, false)
    decreases |s|, 1
  {
    RewriteCopyStep(s, key, value, b);
    PrefixCopyStep(s, key, value, b, i);
    TailAfterChar(s, key, value, i);
    ConcatAssoc([s[0]], Rewrite(s[1..][..i - 1], key, value, s[0] == '/'),
      Piece(key, value, s[i - 1] == '/'), Rewrite(s[i + |key|..], key, value, false));
  }

  /** The key and value the scan in `bundle.ts` uses satisfy `SpliceSafe`. */
  lemma HttpResponsesSpliceSafe()
    ensures SpliceSafe(HttpResponsesKey, HttpResponsesLocation)
    ensures |HttpResponsesKey| == 22
  {
  }

  /** The character before position `i` of `s` is a `/`. */
  predicate SlashBefore(s: string, i: int) {
    0 < i <= |s| && s[i - 1] == '/'
  }

  /**
    The loop's state: `pomStr[..index]` is output, `pomStr[index..]` is the
    unscanned rest `strFile[j..]` of the original text, and finishing the scan
    from here gives the scan of the whole text.
   */
  ghost predicate ScanState(strFile: string, key: string, value: string, pomStr: string, index: int, j: int)
    requires |key| > 0
  {
    && 0 <= index <= |pomStr|
    && 0 <= j <= |strFile|
    && pomStr[index..] == strFile[j..]
    && pomStr[..index] + Rewrite(strFile[j..], key, value, SlashBefore(pomStr, index))
       == Rewrite(strFile, key, value, false)
  }

  /** `a + (b + c)` regrouped to the left. */
  lemma ConcatLeft(a: string, b: string, c: string)
    ensures a + (b + c) == a + b + c
  {
  }

  /** The scan over an occurrence of the key at `q`, seen from `t[q..]`. */
  lemma KeyStepAt(t: string, key: string, value: string, flag: bool, q: int)
    requires SpliceSafe(key, value)
    requires OccursAt(t, key, q)
    ensures Rewrite(t[q..], key, value, flag) == Piece(key, value, flag) + Rewrite(t[q + |key|..], key, value, false)
  {
    OccursInSuffix(t, key, q, 0);
    RewriteKeyStep(t[q..], key, value, flag);
    assert t[q..][|key|..] == t[q + |key|..];
  }

  /** The scan up to and over the first occurrence of the key, at `q`. */
  lemma RewriteToFirstOccurrence(t: string, key: string, value: string, flag: bool, q: int)
    requires SpliceSafe(key, value)
    requires OccursAt(t, key, q)
    requires forall k :: 0 <= k < q ==> !OccursAt(t, key, k)
    ensures Rewrite(t, key, value, flag) ==
      t[..q] + Piece(key, value, FlagAt(t, q, flag)) + Rewrite(t[q + |key|..], key, value, false)
  {
    KeyStepAt(t, key, value, FlagAt(t, q, flag), q);
    RewriteCopiesPlain(t, key, value, flag, q);
    ConcatLeft(t[..q], Piece(key, value, FlagAt(t, q, flag)), Rewrite(t[q + |key|..], key, value, false));
  }

  /**
    The unscanned rest `t` of a loop state, up to the next occurrence at `at`:
    the occurrence is the first one in `t`, the flag on reaching it is the
    character before it, and the text before and after it splits as in `pomStr`.
   */
  lemma RestView(pomStr: string, key: string, index: int, at: int)
    requires 0 <= index <= at && OccursAt(pomStr, key, at)
    requires forall k :: index <= k < at ==> !OccursAt(pomStr, key, k)
    ensures OccursAt(pomStr[index..], key, at - index)
    ensures forall k :: 0 <= k < at - index ==> !OccursAt(pomStr[index..], key, k)
    ensures FlagAt(pomStr[index..], at - index, SlashBefore(pomStr, index)) == SlashBefore(pomStr, at)
    ensures pomStr[..at] == pomStr[..index] + pomStr[index..][..at - index]
    ensures pomStr[at + |key|..] == pomStr[index..][at - index + |key|..]
  {
    var t := pomStr[index..];
    forall k | 0 <= k < at - index ensures !OccursAt(t, key, k) {
      OccursInSuffix(pomStr, key, index, k);
    }
    ShiftOccurrence(pomStr, key, index, at);
    if at > index {
      assert pomStr[at - 1] == t[at - index - 1];
    }
    assert t[..at - index] == pomStr[index..at];
  }

  /** From a loop state, the scan up to and over the next occurrence at `at`. */
  lemma ScanToOccurrence(strFile: string, key: string, value: string, pomStr: string, index: int, j: int, at: int)
    requires SpliceSafe(key, value)
    requires ScanState(strFile, key, value, pomStr, index, j)
    requires index <= at && OccursAt(pomStr, key, at)
    requires forall k :: index <= k < at ==> !OccursAt(pomStr, key, k)
    ensures j + (at - index) + |key| <= |strFile|
    ensures pomStr[at + |key|..] == strFile[j + (at - index) + |key|..]
    ensures Rewrite(strFile, key, value, false) ==
      pomStr[..at] + Piece(key, value, SlashBefore(pomStr, at))
      + Rewrite(strFile[j + (at - index) + |key|..], key, value, false)
  {
    var t := pomStr[index..];
    var q := at - index;
    RestView(pomStr, key, index, at);
    RewriteToFirstOccurrence(t, key, value, SlashBefore(pomStr, index), q);
    assert t[q + |key|..] == strFile[j + q + |key|..];
    ConcatAssoc(pomStr[..index], t[..q], Piece(key, value, SlashBefore(pomStr, at)),
      Rewrite(strFile[j + q + |key|..], key, value, false));
  }

  /** Splicing `value` over an occurrence not preceded by `/` keeps the loop state. */
  lemma ScanReplace(strFile: string, key: string, value: string, pomStr: string, index: int, j: int, at: int)
    requires SpliceSafe(key, value)
    requires ScanState(strFile, key, value, pomStr, index, j)
    requires index <= at && OccursAt(pomStr, key, at)
    requires forall k :: index <= k < at ==> !OccursAt(pomStr, key, k)
    requires !SlashBefore(pomStr, at)
    ensures ScanState(strFile, key, value,
      pomStr[..at] + value + pomStr[at + |key|..], at + |value|, j + (at - index) + |key|)
  {
    ScanToOccurrence(strFile, key, value, pomStr, index, j, at);
    var p := pomStr[..at] + value + pomStr[at + |key|..];
    var i := at + |value|;
    assert p[..i] == pomStr[..at] + value;
    assert p[i..] == pomStr[at + |key|..];
    assert !SlashBefore(p, i) by {
      assert p[i - 1] == value[|value| - 1];
    }
  }

  /** Stepping over an occurrence preceded by `/` keeps the loop state. */
  lemma ScanKeep(strFile: string, key: string, value: string, pomStr: string, index: int, j: int, at: int)
    requires SpliceSafe(key, value)
    requires ScanState(strFile, key, value, pomStr, index, j)
    requires index <= at && OccursAt(pomStr, key, at)
    requires forall k :: index <= k < at ==> !OccursAt(pomStr, key, k)
    requires SlashBefore(pomStr, at)
    ensures ScanState(strFile, key, value, pomStr, at + |key|, j + (at - index) + |key|)
  {
    ScanToOccurrence(strFile, key, value, pomStr, index, j, at);
    var i := at + |key|;
    assert pomStr[..i] == pomStr[..at] + key by {
      assert pomStr[at..i] == key;
    }
    assert !SlashBefore(pomStr, i) by {
      assert pomStr[i - 1] == pomStr[at..i][|key| - 1];
    }
  }

  /** A loop state with no occurrence left to find holds the finished scan. */
  lemma ScanDone(strFile: string, key: string, value: string, pomStr: string, index: int, j: int)
    requires |key| > 0
    requires ScanState(strFile, key, value, pomStr, index, j)
    requires forall k :: index <= k ==> !OccursAt(pomStr, key, k)
    ensures pomStr == Rewrite(strFile, key, value, false)
  {
    forall k | 0 <= k ensures !OccursAt(strFile[j..], key, k) {
      OccursInSuffix(pomStr, key, index, k);
    }
    RewriteWithoutKey(strFile[j..], key, value, SlashBefore(pomStr, index));
    assert pomStr[..index] + pomStr[index..] == pomStr;
  }

  /**
    The loop of `subParseCustomLocations`, for a key of its hard-coded length 22: find the
    next occurrence at or after `index`; if the character before it is not `/`,
    splice in `value` and continue after it, otherwise continue after the
    occurrence.
   */
  method SpliceLoop(strFile: string, key: string, value: string) returns (pomStr: string)
    requires SpliceSafe(key, value) && |key| == 22
    ensures pomStr == Rewrite(strFile, key, value, false)
  {
    var index := 0;
    pomStr := strFile;
    ghost var j := 0;
    while Includes(pomStr, key, index)
      invariant ScanState(strFile, key, value, pomStr, index, j)
      decreases |pomStr| - index
    {
      ghost var start := index;
      index := IndexOf(pomStr, key, index);
      ghost var skipped := index - start;
      if CharAt(pomStr, index - 1) != "/" {
        ScanReplace(strFile, key, value, pomStr, start, j, index);
        var before := pomStr[..index];
        var after := pomStr[index + 22..];
        pomStr := before + value + after;
        index := index + |value|;
      } else {
        ScanKeep(strFile, key, value, pomStr, start, j, index);
        index := index + 22;
      }
      j := j + skipped + 22;
    }
    ScanDone(strFile, key, value, pomStr, index, j);
  }

  /**
    `subParseCustomLocations`: every occurrence of `http-responses-v2.yaml` not
    preceded by `/` becomes its canonical URL; text without one is returned as is.
   */
  method SubParseCustomLocations(strFile: string) returns (pomStr: string)
    ensures pomStr == Rewrite(strFile, HttpResponsesKey, HttpResponsesLocation, false)
    ensures (forall k :: 0 <= k ==> !OccursAt(strFile, HttpResponsesKey, k)) ==> pomStr == strFile
  {
    HttpResponsesSpliceSafe();
    pomStr := SpliceLoop(strFile, HttpResponsesKey, HttpResponsesLocation);
    if forall k :: 0 <= k ==> !OccursAt(strFile, HttpResponsesKey, k) {
      RewriteWithoutKey(strFile, HttpResponsesKey, HttpResponsesLocation, false);
    }
  }
}
