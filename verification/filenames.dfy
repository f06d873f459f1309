/** File-name sanitising (`safe_filename`) in its two variants: the capped one of
    main.py and the uncapped one of paper_voice_bot.py. */
module Filenames {
  import opened Text

  /** The characters `[<>:"/\\|?*\r\n]` that `safe_filename` replaces. */
  const Forbidden: set<char> := {'<', '>', ':', '"', '/', '\\', '|', '?', '*', '\r', '\n'}

  const Underscore: CharClass := Chars({'_'})

  /** The cap main.py puts on a sanitised name (`[:120]`). */
  const MaxNameLength := 120

  /** `re.sub(r'[<>:"/\\|?*\r\n]', "_", name)`: each forbidden character becomes `_`. */
  function MaskForbidden(s: string): (r: string)
    ensures |r| == |s|
    ensures forall i :: 0 <= i < |s| ==> r[i] == (if s[i] in Forbidden then '_' else s[i])
    ensures forall i :: 0 <= i < |r| ==> r[i] !in Forbidden
  {
    if |s| == 0 then [] else [if s[0] in Forbidden then '_' else s[0]] + MaskForbidden(s[1..])
  }

  /** Masking keeps every character that is neither forbidden nor `_`, in order. */
  lemma {:induction false} MaskForbiddenKeepsContent(s: string)
    ensures Remove(MaskForbidden(s), Underscore) == Remove(s, Chars(Forbidden + {'_'}))
    decreases |s|
  {
    if |s| > 0 {
      MaskForbiddenKeepsContent(s[1..]);
      assert MaskForbidden(s)[1..] == MaskForbidden(s[1..]);
    }
  }

  /** The name masked and with its runs of `_` squeezed, before stripping. */
  function Squeezed(name: string): string
  {
    CollapseRuns(MaskForbidden(name), Underscore, '_')
  }

  /** The squeezed, masked name: no forbidden character and no `__`. */
  lemma SqueezedIsClean(name: string)
    ensures forall i :: 0 <= i < |Squeezed(name)| ==> Squeezed(name)[i] !in Forbidden
    ensures forall i :: 0 <= i < |Squeezed(name)| - 1 ==> !(Squeezed(name)[i] == '_' && Squeezed(name)[i + 1] == '_')
  {
    var masked := MaskForbidden(name);
    var sq := CollapseRuns(masked, Underscore, '_');
    CollapseRunsDrawsFrom(masked, Underscore, '_');
    forall i | 0 <= i < |sq|
      ensures sq[i] !in Forbidden
    {
      if sq[i] != '_' {
        assert sq[i] in masked;
        var j :| 0 <= j < |masked| && masked[j] == sq[i];
      }
    }
  }

  /** paper_voice_bot.py's `safe_filename`: mask forbidden characters, squeeze runs of
      `_`, strip `_` from both ends. The result has no forbidden character, no `__`,
      and no `_` at either end. */
  function SafeFilenameUncapped(name: string): (r: string)
    ensures |r| <= |name|
    ensures forall i :: 0 <= i < |r| ==> r[i] !in Forbidden
    ensures forall i :: 0 <= i < |r| - 1 ==> !(r[i] == '_' && r[i + 1] == '_')
    ensures |r| > 0 ==> r[0] != '_' && r[|r| - 1] != '_'
  {
    var sq := Squeezed(name);
    SqueezedIsClean(name);
    StripKeepsAbsence(sq, Underscore, Forbidden, '_');
    Strip(sq, Underscore)
  }

  /** Sanitising keeps every character of `name` that is neither forbidden nor `_`,
      in order: only separators are touched. */
  lemma SafeFilenameKeepsContent(name: string)
    ensures Remove(SafeFilenameUncapped(name), Underscore) == Remove(name, Chars(Forbidden + {'_'}))
  {
    var sq := Squeezed(name);
    MaskForbiddenKeepsContent(name);
    CollapseRunsKeepsContent(MaskForbidden(name), Underscore, '_');
    RemoveStrip(sq, Underscore);
  }

  /** No position of `s` holds `c`. */
  predicate Avoids(s: string, c: char) {
    forall i :: 0 <= i < |s| ==> s[i] != c
  }

  /** A slice of a text that avoids `c` avoids it too. */
  lemma SliceAvoids(r: string, s: string, lo: nat, c: char)
    requires lo + |r| <= |s| && r == s[lo..lo + |r|]
    requires Avoids(s, c)
    ensures Avoids(r, c)
  {
    forall i | 0 <= i < |r|
      ensures r[i] != c
    {
      assert r[i] == s[lo + i];
    }
  }

  lemma SqueezedAvoids(name: string, c: char)
    requires c != '_' && Avoids(name, c)
    ensures Avoids(Squeezed(name), c)
  {
    var masked := MaskForbidden(name);
    var sq := CollapseRuns(masked, Underscore, '_');
    CollapseRunsDrawsFrom(masked, Underscore, '_');
    assert Avoids(masked, c) by {
      assert forall i :: 0 <= i < |masked| ==> masked[i] == '_' || masked[i] == name[i];
    }
    forall i | 0 <= i < |sq| && sq[i] != '_'
      ensures sq[i] != c
    {
      var j :| 0 <= j < |masked| && masked[j] == sq[i];
    }
  }

  lemma UncappedAvoids(name: string, c: char)
    requires c != '_' && Avoids(name, c)
    ensures Avoids(SafeFilenameUncapped(name), c)
  {
    var sq := Squeezed(name);
    assert SafeFilenameUncapped(name) == Strip(sq, Underscore);
    assert Avoids(Strip(sq, Underscore), c) by {
      SqueezedAvoids(name, c);
      SliceAvoids(Strip(sq, Underscore), sq, LeadLen(sq, Underscore), c);
    }
  }

  /** Sanitising introduces no character but `_`: one that `name` lacks, the result
      lacks too. */
  lemma SafeFilenameKeepsAbsent(name: string, c: char)
    requires c != '_' && Avoids(name, c)
    ensures Avoids(SafeFilename(name), c)
  {
    UncappedAvoids(name, c);
    SliceAvoids(SafeFilename(name), SafeFilenameUncapped(name), 0, c);
  }

  /** main.py's `safe_filename`: the uncapped result cut to its first 120 characters.
      It keeps the character-class guarantees and the absence of a leading `_`, but
      the cut can expose a trailing `_`. */
  function SafeFilename(name: string): (r: string)
    ensures |r| <= MaxNameLength
    ensures |r| == Min(MaxNameLength, |SafeFilenameUncapped(name)|)
    ensures IsPrefix(r, SafeFilenameUncapped(name))
    ensures forall i :: 0 <= i < |r| ==> r[i] !in Forbidden
    ensures forall i :: 0 <= i < |r| - 1 ==> !(r[i] == '_' && r[i + 1] == '_')
    ensures |r| > 0 ==> r[0] != '_'
  {
    CutKeepsClean(SafeFilenameUncapped(name), MaxNameLength);
    Prefix(SafeFilenameUncapped(name), MaxNameLength)
  }

  /** A prefix of a clean name is clean, except that it may end with `_`. */
  lemma CutKeepsClean(u: string, n: nat)
    requires forall i :: 0 <= i < |u| ==> u[i] !in Forbidden
    requires forall i :: 0 <= i < |u| - 1 ==> !(u[i] == '_' && u[i + 1] == '_')
    requires |u| > 0 ==> u[0] != '_'
    ensures var r := Prefix(u, n);
            && (forall i :: 0 <= i < |r| ==> r[i] !in Forbidden)
            && (forall i :: 0 <= i < |r| - 1 ==> !(r[i] == '_' && r[i + 1] == '_'))
            && (|r| > 0 ==> r[0] != '_')
  {
    var r := Prefix(u, n);
    assert forall i :: 0 <= i < |r| ==> r[i] == u[i];
  }

  /** A name that already satisfies the guarantees is returned unchanged, so the
      uncapped variant is idempotent. */
  lemma SafeNameFixed(s: string)
    requires forall i :: 0 <= i < |s| ==> s[i] !in Forbidden
    requires forall i :: 0 <= i < |s| - 1 ==> !(s[i] == '_' && s[i + 1] == '_')
    requires |s| > 0 ==> s[0] != '_' && s[|s| - 1] != '_'
    ensures SafeFilenameUncapped(s) == s
  {
    assert MaskForbidden(s) == s;
    CollapseRunsFixed(s, Underscore, '_');
    StripFixed(s, Underscore);
  }

  /** The uncapped name in terms of the position-wise reading of the run squeeze:
      masked, each run of `_` kept as its first `_`, then stripped of `_`. */
  lemma SafeFilenameByReference(name: string)
    ensures SafeFilenameUncapped(name) == Strip(CollapseRef(MaskForbidden(name), Underscore, '_'), Underscore)
  {
    CollapseRunsMatchesReference(MaskForbidden(name), Underscore, '_');
  }

  /** Two words separated by any run of forbidden characters and `_` come out joined
      by exactly one `_`. */
  lemma SafeFilenameSeparates(w1: string, run: string, w2: string)
    requires |w1| > 0 && forall i :: 0 <= i < |w1| ==> w1[i] !in Forbidden && w1[i] != '_'
    requires |w2| > 0 && forall i :: 0 <= i < |w2| ==> w2[i] !in Forbidden && w2[i] != '_'
    requires |run| > 0 && forall i :: 0 <= i < |run| ==> run[i] in Forbidden || run[i] == '_'
    ensures SafeFilenameUncapped(w1 + run + w2) == w1 + "_" + w2
  {
    var underscores := seq(|run|, _ => '_');
    assert MaskForbidden(w1 + run + w2) == w1 + underscores + w2 by {
      MaskSeparated(w1, run, w2, underscores);
    }
    CollapseRunsSeparates(w1, underscores, w2, Underscore, '_');
    var joined := w1 + "_" + w2;
    assert joined[0] == w1[0] && joined[|joined| - 1] == w2[|w2| - 1];
    StripFixed(joined, Underscore);
  }

  lemma MaskSeparated(w1: string, run: string, w2: string, underscores: string)
    requires forall i :: 0 <= i < |w1| ==> w1[i] !in Forbidden
    requires forall i :: 0 <= i < |w2| ==> w2[i] !in Forbidden
    requires forall i :: 0 <= i < |run| ==> run[i] in Forbidden || run[i] == '_'
    requires underscores == seq(|run|, _ => '_')
    ensures MaskForbidden(w1 + run + w2) == w1 + underscores + w2
  {
    var x := w1 + run + w2;
    var m := MaskForbidden(x);
    forall i | 0 <= i < |x|
      ensures m[i] == (w1 + underscores + w2)[i]
    {
      if i < |w1| {
        assert x[i] == w1[i];
      } else if i < |w1| + |run| {
        assert x[i] == run[i - |w1|];
      } else {
        assert x[i] == w2[i - |w1| - |run|];
      }
    }
  }

  lemma SafeFilenameUncappedIdempotent(name: string)
    ensures SafeFilenameUncapped(SafeFilenameUncapped(name)) == SafeFilenameUncapped(name)
  {
    SafeNameFixed(SafeFilenameUncapped(name));
  }

  /** A capped result that ends with `_` is shortened by a second pass. */
  lemma SafeFilenameStripsCutUnderscore(r: string)
    requires |r| > 0 && r[|r| - 1] == '_'
    ensures SafeFilename(r) != r
  {
    ShortPrefixDiffers(SafeFilename(r), SafeFilenameUncapped(r), r);
  }

  /** A prefix of a text no longer than `r` and not ending with `_` is not `r`, when
      `r` ends with `_`. */
  lemma ShortPrefixDiffers(p: string, u: string, r: string)
    requires IsPrefix(p, u) && |u| <= |r|
    requires |u| > 0 ==> u[|u| - 1] != '_'
    requires |r| > 0 && r[|r| - 1] == '_'
    ensures p != r
  {
    if |p| == |r| {
      assert p == u;
    }
  }

  /** A clean name of at most 120 characters is its own capped sanitisation. */
  lemma SafeFilenameFixed(r: string)
    requires |r| <= MaxNameLength
    requires forall i :: 0 <= i < |r| ==> r[i] !in Forbidden
    requires forall i :: 0 <= i < |r| - 1 ==> !(r[i] == '_' && r[i + 1] == '_')
    requires |r| > 0 ==> r[0] != '_' && r[|r| - 1] != '_'
    ensures SafeFilename(r) == r
  {
    SafeNameFixed(r);
  }

  /** The capped variant is idempotent exactly when its result does not end with `_`
      (a second pass strips that `_`). */
  lemma SafeFilenameIdempotentIff(name: string)
    ensures var r := SafeFilename(name);
            SafeFilename(r) == r <==> |r| == 0 || r[|r| - 1] != '_'
  {
    var r := SafeFilename(name);
    if |r| == 0 || r[|r| - 1] != '_' {
      SafeFilenameFixed(r);
    } else {
      SafeFilenameStripsCutUnderscore(r);
    }
  }

  /** The cut can end on `_`: 119 letters followed by `_b` sanitise to a name that
      ends with `_`, which a second pass shortens. */
  lemma SafeFilenameCutExposesUnderscore()
    ensures var r := SafeFilename(seq(119, _ => 'a') + "_b");
            |r| == MaxNameLength && r[MaxNameLength - 1] == '_' && SafeFilename(r) != r
  {
    var name := seq(119, _ => 'a') + "_b";
    assert forall i :: 0 <= i < |name| ==> name[i] == (if i < 119 then 'a' else if i == 119 then '_' else 'b');
    SafeNameFixed(name);
    SafeFilenameIdempotentIff(name);
  }
}
