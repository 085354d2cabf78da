/**
  What `clean_json_string` promises, proved about the model in module Sanitizer:
  that `Search` reports exactly the match Python's engine reports, the two
  pass-through cases, the shape of an extracted payload, a round trip through
  fencing, idempotence, and a few concrete replies.
*/
module SanitizerProperties {
  import opened Sanitizer

  // ----- small facts about occurrences -----

  /** A slice of a slice is a slice of the whole string. */
  lemma SliceOfSlice(s: string, lo: nat, hi: nat, k: nat, j: nat)
    requires lo <= hi <= |s| && k <= j <= hi - lo
    ensures s[lo..hi][k..j] == s[lo + k..lo + j]
  {
    var u := s[lo..hi][k..j];
    forall x | 0 <= x < |u| ensures u[x] == s[lo + k + x] {}
  }

  /** An occurrence inside a slice is an occurrence in the whole string that ends inside the slice. */
  lemma OccursInSlice(s: string, lo: nat, hi: nat, k: nat, t: string)
    requires lo <= hi <= |s|
    ensures OccursAt(s[lo..hi], k, t) <==> k + |t| <= hi - lo && OccursAt(s, lo + k, t)
  {
    if k + |t| <= hi - lo {
      SliceOfSlice(s, lo, hi, k, k + |t|);
    }
  }

  /** A string without a backtick holds no closer. */
  lemma NoBacktickNoCloser(s: string)
    requires '`' !in s
    ensures Free(s, Closer)
  {
    forall m | 0 <= m <= |s| ensures !OccursAt(s, m, Closer) {
      assert m + |Closer| <= |s| ==> s[m..m + |Closer|][0] == s[m] != '`';
    }
  }

  /** Every opener begins with a closer, so a string without closers holds no opener. */
  lemma CloserFreeIsOpenerFree(s: string)
    requires Free(s, Closer)
    ensures Free(s, Opener)
  {
    assert Opener[..|Closer|] == Closer;
    forall m | 0 <= m <= |s| ensures !OccursAt(s, m, Opener) {
      if m + |Opener| <= |s| {
        SliceOfSlice(s, m, m + |Opener|, 0, |Closer|);
        assert !OccursAt(s, m, Closer);
      }
    }
  }

  /** A string without a lower-case `j` holds no opener. */
  lemma NoTagLetterNoOpener(s: string)
    requires 'j' !in s
    ensures Free(s, Opener)
  {
    assert Opener[3] == 'j';
    forall m | 0 <= m <= |s| ensures !OccursAt(s, m, Opener) {
      if m + |Opener| <= |s| {
        assert s[m + 3] in s;
        assert s[m..m + |Opener|][3] == s[m + 3] != Opener[3];
      }
    }
  }

  /** The greedy `\s*` ends at the first non-whitespace character and nowhere else. */
  lemma SkipWsAt(s: string, k: nat, x: nat)
    requires k <= x <= |s| && AllWs(s, k, x)
    requires x < |s| ==> !IsWs(s[x])
    ensures SkipWs(s, k) == x
  {
  }

  /** The group stops at the start of the whitespace run before the closer and nowhere else. */
  lemma SkipWsBackAt(s: string, lo: nat, hi: nat, x: nat)
    requires lo <= x <= hi <= |s| && AllWs(s, x, hi)
    requires lo < x ==> !IsWs(s[x - 1])
    ensures SkipWsBack(s, lo, hi) == x
  {
  }

  // ----- the model agrees with Python's regex semantics -----

  /**
    `Search` finds a match exactly when the pattern can match somewhere, and the
    match it finds is the first one `re.search` tries, which is the one Python
    reports.
  */
  lemma {:induction false} SearchIsFirstTriedMatch(s: string)
    ensures Search(s).None? <==> forall n :: !IsMatch(s, n)
    ensures Search(s).Some? ==> forall n :: IsMatch(s, n) ==> TriedNoLaterThan(Search(s).value, n)
  {
    match FindFrom(s, Opener, 0)
    case None =>
      forall n ensures !IsMatch(s, n) {
        assert n.start <= |s| ==> !OccursAt(s, n.start, Opener);
      }
    case Some(i) =>
      match FindFrom(s, Closer, i + |Opener|)
      case None =>
        forall n ensures !IsMatch(s, n) {
          assert n.start < i ==> !OccursAt(s, n.start, Opener);
          assert i + |Opener| <= n.closer <= |s| ==> !OccursAt(s, n.closer, Closer);
        }
      case Some(p) =>
        var m := Search(s).value;
        forall n | IsMatch(s, n) ensures TriedNoLaterThan(m, n) {
          FirstTried(s, i, p, m, n);
        }
  }

  /** One comparison of `SearchIsFirstTriedMatch`, with the leftmost opener `i` and the first closer `p`. */
  lemma FirstTried(s: string, i: nat, p: nat, m: Match, n: Match)
    requires OccursAt(s, i, Opener) && NoneFrom(s, Opener, 0, i)
    requires i + |Opener| <= p && OccursAt(s, p, Closer) && NoneFrom(s, Closer, i + |Opener|, p)
    requires m.start == i && m.closer == p
    requires m.groupStart == SkipWs(s, i + |Opener|) <= p
    requires m.groupEnd == SkipWsBack(s, m.groupStart, p)
    requires IsMatch(s, n)
    ensures TriedNoLaterThan(m, n)
  {
    var a, e := m.groupStart, m.groupEnd;
    assert i <= n.start by {
      assert n.start < i ==> !OccursAt(s, n.start, Opener);
    }
    if n.start == i {
      assert n.groupStart <= a by {
        assert !IsWs(s[a]);
      }
      if n.groupStart == a {
        assert p <= n.closer by {
          assert n.closer < p ==> !OccursAt(s, n.closer, Closer);
        }
        if n.groupEnd <= p {
          CloserNotInWs(s, n.groupEnd, n.closer, p);
          assert e <= n.groupEnd by {
            assert a < e ==> !IsWs(s[e - 1]);
          }
        }
      }
    }
  }

  // ----- pass-through cases -----

  /** A reply holding no "```json" anywhere comes back unchanged. */
  lemma NoOpenerIsIdentity(s: string)
    requires Free(s, Opener)
    ensures Search(s).None? && Clean(s) == s
  {
  }

  /** A reply whose leftmost "```json" is followed by no "```" comes back unchanged. */
  lemma UnclosedOpenerIsIdentity(s: string, i: nat)
    requires OccursAt(s, i, Opener) && NoneFrom(s, Opener, 0, i)
    requires NoneFrom(s, Closer, i + |Opener|, |s| + 1)
    ensures Search(s).None? && Clean(s) == s
  {
  }

  // ----- the shape of an extracted payload -----

  /**
    On a match the payload is a piece of the reply that starts after the
    leftmost opener and leaves out at least the opener and the closer, so the
    reply is shortened exactly when a match was found.
  */
  lemma MatchIsSliceAfterOpener(s: string)
    ensures Search(s).Some? <==> |Clean(s)| < |s|
    ensures Search(s).Some? ==>
      && OccursAt(s, Search(s).value.start, Opener)
      && NoneFrom(s, Opener, 0, Search(s).value.start)
      && Search(s).value.start + |Opener| <= Search(s).value.groupStart
      && OccursAt(s, Search(s).value.groupStart, Clean(s))
      && |Clean(s)| + |Opener| + |Closer| <= |s|
  {
  }

  /** On a match the payload holds no "```": the lazy group stops at the first closer. */
  lemma PayloadHasNoCloser(s: string)
    requires Search(s).Some?
    ensures Free(Clean(s), Closer)
  {
    var m := Search(s).value;
    var r := Clean(s);
    forall k | 0 <= k <= |r| ensures !OccursAt(r, k, Closer) {
      OccursInSlice(s, m.groupStart, m.groupEnd, k, Closer);
    }
  }

  /** On a match a non-empty payload neither begins nor ends with whitespace. */
  lemma PayloadIsTrimmed(s: string)
    requires Search(s).Some? && Clean(s) != []
    ensures !IsWs(Clean(s)[0]) && !IsWs(Clean(s)[|Clean(s)| - 1])
  {
  }

  // ----- round trip and idempotence -----

  /**
    Wrapping a payload in a `json` fence and cleaning gives the payload back,
    whatever text comes before (if it holds no opener) or after the fence.
    The payload must hold no "```", must not begin or end with whitespace,
    and must not end with a backtick when nothing separates it from the
    closer (see `TrailingBacktickIsLost`).
  */
  lemma {:induction false} RoundTrip(pre: string, w1: string, body: string, w2: string, post: string)
    requires Free(pre, Opener)
    requires AllWs(w1, 0, |w1|) && AllWs(w2, 0, |w2|)
    requires Free(body, Closer)
    requires body != [] ==> !IsWs(body[0]) && !IsWs(body[|body| - 1])
    requires body != [] && w2 == [] ==> body[|body| - 1] != '`'
    ensures Clean(pre + Opener + w1 + body + w2 + Closer + post) == body
  {
    var s := pre + Opener + w1 + body + w2 + Closer + post;
    var i := |pre|;
    var lo := i + |Opener|;
    var b := lo + |w1|;
    var c := b + |body|;
    var q := c + |w2|;
    FenceLayout(s, pre, w1, body, w2, post);
    OpenerIsLeftmost(s, pre);
    CloserIsFirst(s, lo, b, c, q, w1, body, w2);
    WsSlice(s, lo, b, w1);
    WsSlice(s, c, q, w2);
    FencedPayload(s, i, b, c, q, body);
  }

  /** `RoundTrip` for a reply `s` whose parts have been located. */
  lemma FencedPayload(s: string, i: nat, b: nat, c: nat, q: nat, body: string)
    requires i + |Opener| <= b <= c <= q
    requires OccursAt(s, i, Opener) && NoneFrom(s, Opener, 0, i)
    requires OccursAt(s, q, Closer) && NoneFrom(s, Closer, i + |Opener|, q)
    requires AllWs(s, i + |Opener|, b) && AllWs(s, c, q)
    requires s[b..c] == body
    requires body != [] ==> !IsWs(body[0]) && !IsWs(body[|body| - 1])
    ensures Clean(s) == body
  {
    var lo := i + |Opener|;
    if body == [] {
      assert !IsWs(s[q]) by {
        assert s[q] == s[q..q + |Closer|][0];
      }
      assert AllWs(s, lo, q) by {
        assert b == c;
      }
      SkipWsAt(s, lo, q);
      SkipWsBackAt(s, q, q, q);
    } else {
      assert !IsWs(s[b]) && !IsWs(s[c - 1]) by {
        assert s[b] == s[b..c][0] == body[0];
        assert s[c - 1] == s[b..c][|body| - 1] == body[|body| - 1];
      }
      SkipWsAt(s, lo, b);
      SkipWsBackAt(s, b, q, c);
    }
    SearchAt(s, i, q);
  }

  /** A slice equal to a whitespace string is a whitespace run. */
  lemma WsSlice(s: string, lo: nat, hi: nat, w: string)
    requires lo <= hi <= |s| && s[lo..hi] == w && AllWs(w, 0, |w|)
    ensures AllWs(s, lo, hi)
  {
  }

  /** Where each part of a fenced reply lies. */
  lemma FenceLayout(s: string, pre: string, w1: string, body: string, w2: string, post: string)
    requires s == pre + Opener + w1 + body + w2 + Closer + post
    ensures |s| == |pre| + |Opener| + |w1| + |body| + |w2| + |Closer| + |post|
    ensures s[..|pre|] == pre
    ensures s[|pre|..|pre| + |Opener|] == Opener
    ensures s[|pre| + |Opener|..|pre| + |Opener| + |w1|] == w1
    ensures s[|pre| + |Opener| + |w1|..|pre| + |Opener| + |w1| + |body|] == body
    ensures s[|pre| + |Opener| + |w1| + |body|..|pre| + |Opener| + |w1| + |body| + |w2|] == w2
    ensures s[|pre| + |Opener| + |w1| + |body| + |w2|..|pre| + |Opener| + |w1| + |body| + |w2| + |Closer|] == Closer
  {
  }

  /**
    With the leftmost opener at `i` and the first closer after it at `q`, the
    match runs from the end of the whitespace after the opener to the start of
    the whitespace before the closer.
  */
  lemma SearchAt(s: string, i: nat, q: nat)
    requires OccursAt(s, i, Opener) && NoneFrom(s, Opener, 0, i)
    requires i + |Opener| <= q && OccursAt(s, q, Closer) && NoneFrom(s, Closer, i + |Opener|, q)
    ensures SkipWs(s, i + |Opener|) <= q
    ensures Search(s) == Some(Match(i, SkipWs(s, i + |Opener|), SkipWsBack(s, SkipWs(s, i + |Opener|), q), q))
  {
    var lo := i + |Opener|;
    var a := SkipWs(s, lo);
    CloserNotInWs(s, lo, a, q);
    var f := FindFrom(s, Opener, 0);
    assert f == Some(i) by {
      assert f.None? ==> !OccursAt(s, i, Opener);
      assert f.Some? ==> !OccursAt(s, i, Opener) || f.value <= i;
    }
    var g := FindFrom(s, Closer, lo);
    assert g == Some(q) by {
      assert g.None? ==> !OccursAt(s, q, Closer);
      assert g.Some? ==> !OccursAt(s, q, Closer) || g.value <= q;
    }
    assert Search(s) == Some(Match(i, a, SkipWsBack(s, a, q), q));
  }

  /** No "```json" starts inside the text before the first fence. */
  lemma OpenerIsLeftmost(s: string, pre: string)
    requires |pre| + |Opener| <= |s| && s[..|pre|] == pre && s[|pre|..|pre| + |Opener|] == Opener
    requires Free(pre, Opener)
    ensures NoneFrom(s, Opener, 0, |pre|)
  {
    var i := |pre|;
    forall k | 0 <= k < i ensures !OccursAt(s, k, Opener) {
      if k + |Opener| <= i {
        SliceOfSlice(s, 0, i, k, k + |Opener|);
        assert !OccursAt(pre, k, Opener);
      } else {
        // the opener's only `n` is its last character, so it cannot straddle `i`
        var j := k + 6 - i;
        assert s[k + 6] == Opener[j] == Opener[..6][j];
        assert 'n' !in Opener[..6];
        assert s[k..k + |Opener|][6] == s[k + 6];
      }
    }
  }

  /** No "```" starts between the opener's end `lo` and the closer at `q`. */
  lemma CloserIsFirst(s: string, lo: nat, b: nat, c: nat, q: nat, w1: string, body: string, w2: string)
    requires lo <= b <= c <= q && q + |Closer| <= |s|
    requires s[lo..b] == w1 && s[b..c] == body && s[c..q] == w2 && s[q..q + |Closer|] == Closer
    requires AllWs(w1, 0, |w1|) && AllWs(w2, 0, |w2|) && Free(body, Closer)
    requires body != [] && w2 == [] ==> body[|body| - 1] != '`'
    ensures NoneFrom(s, Closer, lo, q)
  {
    forall k | lo <= k < q ensures !OccursAt(s, k, Closer) {
      if k < b {
        assert s[k..k + |Closer|][0] == s[k] == w1[k - lo];
      } else if k < c {
        if k + |Closer| <= c {
          SliceOfSlice(s, b, c, k - b, k - b + |Closer|);
          assert !OccursAt(body, k - b, Closer);
        } else if w2 == [] {
          assert s[k..k + |Closer|][c - 1 - k] == s[c - 1] == body[|body| - 1];
        } else {
          assert s[k..k + |Closer|][c - k] == s[c] == w2[0];
        }
      } else {
        assert s[k..k + |Closer|][0] == s[k] == w2[k - c];
      }
    }
  }

  /** Cleaning twice is cleaning once: a payload holds no closer, hence no opener. */
  lemma CleanIdempotent(s: string)
    ensures Clean(Clean(s)) == Clean(s)
  {
    if Search(s).Some? {
      PayloadHasNoCloser(s);
      CloserFreeIsOpenerFree(Clean(s));
      NoOpenerIsIdentity(Clean(s));
    }
  }

  // ----- concrete replies -----

  /**
    A JSON array fenced the way the completion service tends to fence it
    ("```json", a line break, the array, a line break, "```") comes back as
    the bare array, provided its text holds no "```".
  */
  lemma FencedArrayIsExtracted(payload: string)
    requires |payload| >= 2 && payload[0] == '[' && payload[|payload| - 1] == ']'
    requires Free(payload, Closer)
    ensures Clean("```json\n" + payload + "\n```") == payload
  {
    var pre, w1, w2, post := "", "\n", "\n", "";
    assert pre + Opener + w1 + payload + w2 + Closer + post == "```json\n" + payload + "\n```";
    NoTagLetterNoOpener(pre);
    RoundTrip(pre, w1, payload, w2, post);
  }

  /** The tag is case-sensitive: an upper-case `JSON` fence is not extracted. */
  lemma UpperCaseTagExample()
    ensures Clean("```JSON\n[1]\n```") == "```JSON\n[1]\n```"
  {
    NoTagLetterNoOpener("```JSON\n[1]\n```");
    NoOpenerIsIdentity("```JSON\n[1]\n```");
  }

  /** A bare fence without the `json` tag is not extracted. */
  lemma BareFenceExample()
    ensures Clean("```\n[1]\n```") == "```\n[1]\n```"
  {
    NoTagLetterNoOpener("```\n[1]\n```");
    NoOpenerIsIdentity("```\n[1]\n```");
  }

  /** Only the leftmost `json` fence is extracted; a second one is ignored. */
  lemma LeftmostOpenerExample(reply: string)
    requires reply == "```json a ``` ```json b ```"
    ensures Clean(reply) == "a"
  {
    var pre, w1, body, w2, post := "", " ", "a", " ", " ```json b ```";
    assert pre + Opener + w1 + body + w2 + Closer + post == reply;
    NoTagLetterNoOpener(pre);
    NoBacktickNoCloser(body);
    RoundTrip(pre, w1, body, w2, post);
  }

  /**
    The side condition of `RoundTrip` is needed: a payload ending in a backtick
    that touches the closer loses that backtick, because the first "```" then
    starts one character early.
  */
  lemma TrailingBacktickIsLost(reply: string)
    requires reply == "```json" + "x`" + "```"
    ensures Clean(reply) == "x"
  {
    var pre, w1, body, w2, post := "", "", "x", "", "`";
    assert pre + Opener + w1 + body + w2 + Closer + post == reply;
    NoTagLetterNoOpener(pre);
    NoBacktickNoCloser(body);
    RoundTrip(pre, w1, body, w2, post);
  }
}
