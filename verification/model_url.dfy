/**
 * The two string tests of the extractor (src/components/AlephIIIF.tsx, lines 11-15):
 * `isModelUrl`, a search for the pattern `\.gl(b|tf)(\?|#|$)` ignoring case, and
 * `isModelFormat`, a case-insensitive test for the media-type prefix `model/`.
 */
module ModelUrl {

  /** ASCII case folding. A case-insensitive JavaScript regular expression without the
      `u` flag never folds a non-ASCII character onto an ASCII one, and the only characters
      that `toLowerCase` maps onto the letters of `model/` are their ASCII capitals, so
      folding ASCII letters is exact for both tests. */
  function Lower(c: char): char
  {
    if 'A' <= c <= 'Z' then (c as int + 32) as char else c
  }

  function LowerAll(s: string): string
  {
    seq(|s|, i requires 0 <= i < |s| => Lower(s[i]))
  }

  /** Position `k` can end a match: the end of `s`, or a `?` or `#` at `k`. */
  predicate Boundary(s: string, k: nat)
  {
    k == |s| || (k < |s| && (s[k] == '?' || s[k] == '#'))
  }

  /** The pattern `\.gl(b|tf)(\?|#|$)` matches `s` starting at position `i`. */
  predicate MatchAt(s: string, i: nat)
  {
    i + 4 <= |s| && s[i] == '.' && Lower(s[i + 1]) == 'g' && Lower(s[i + 2]) == 'l' &&
    ((Lower(s[i + 3]) == 'b' && Boundary(s, i + 4)) ||
     (i + 5 <= |s| && Lower(s[i + 3]) == 't' && Lower(s[i + 4]) == 'f' && Boundary(s, i + 5)))
  }

  /** The regular-expression search `test`: tries each start position from `i` on, leftmost first.
      A match needs at least four characters after its start. */
  function SearchFrom(s: string, i: nat): (found: bool)
    decreases |s| - i
    ensures found ==> i + 4 <= |s|
  {
    if i >= |s| then false else MatchAt(s, i) || SearchFrom(s, i + 1)
  }

  /** `isModelUrl` on a string value: the search from position 0. A match needs `.glb` at
      the least, so a model URL has at least four characters; `IsModelUrlSpec` below gives
      the full meaning. */
  predicate IsModelUrl(s: string): (r: bool)
    ensures r ==> |s| >= 4
    ensures |s| >= 4 && s[|s| - 4..] == ".glb" ==> r
  {
    GlbSuffixFound(s);
    SearchFrom(s, 0)
  }

  /** `isModelFormat` on a string value: `s.toLowerCase().startsWith("model/")`. Every such
      string has `/` as its sixth character, and the media types written in lower or upper
      case qualify. */
  predicate IsModelFormat(s: string): (r: bool)
    ensures r ==> |s| >= 6 && s[5] == '/'
    ensures |s| >= 6 && (s[..6] == "model/" || s[..6] == "MODEL/") ==> r
  {
    assert |s| >= 6 ==> LowerAll(s[..6])[5] == Lower(s[5]);
    |s| >= 6 && LowerAll(s[..6]) == "model/"
  }

  // ---------------------------------------------------------------------------------
  // Reference definition of a model URL: some prefix of the string ends in `.glb` or
  // `.gltf` (ignoring case) and is followed by `?`, `#` or the end of the string.

  predicate EndsWithModelExtension(t: string)
  {
    (|t| >= 4 && LowerAll(t[|t| - 4..]) == ".glb") ||
    (|t| >= 5 && LowerAll(t[|t| - 5..]) == ".gltf")
  }

  ghost predicate ExtensionEndsAt(s: string, k: nat)
  {
    k <= |s| && EndsWithModelExtension(s[..k]) && Boundary(s, k)
  }

  ghost predicate HasModelExtension(s: string)
  {
    exists k: nat :: ExtensionEndsAt(s, k)
  }

  lemma LowerIsDot(c: char)
    ensures Lower(c) == '.' <==> c == '.'
  {
  }

  /** The four characters from `i` spell `.glb`, ignoring case. */
  lemma GlbAt(s: string, i: nat)
    requires i + 4 <= |s|
    ensures LowerAll(s[..i + 4][i..]) == ".glb" <==>
      (s[i] == '.' && Lower(s[i + 1]) == 'g' && Lower(s[i + 2]) == 'l' && Lower(s[i + 3]) == 'b')
  {
    var w := LowerAll(s[..i + 4][i..]);
    assert |w| == 4 && w[0] == Lower(s[i]) && w[1] == Lower(s[i + 1]);
    assert w[2] == Lower(s[i + 2]) && w[3] == Lower(s[i + 3]);
    LowerIsDot(s[i]);
  }

  /** The five characters from `i` spell `.gltf`, ignoring case. */
  lemma GltfAt(s: string, i: nat)
    requires i + 5 <= |s|
    ensures LowerAll(s[..i + 5][i..]) == ".gltf" <==>
      (s[i] == '.' && Lower(s[i + 1]) == 'g' && Lower(s[i + 2]) == 'l' &&
       Lower(s[i + 3]) == 't' && Lower(s[i + 4]) == 'f')
  {
    var w := LowerAll(s[..i + 5][i..]);
    assert |w| == 5 && w[0] == Lower(s[i]) && w[1] == Lower(s[i + 1]);
    assert w[2] == Lower(s[i + 2]) && w[3] == Lower(s[i + 3]) && w[4] == Lower(s[i + 4]);
    LowerIsDot(s[i]);
  }

  /** A match starting at `i` is exactly an extension ending at `i + 4` (for `.glb`) or at
      `i + 5` (for `.gltf`). */
  lemma MatchAtEndsExtension(s: string, i: nat)
    ensures MatchAt(s, i) <==>
      ((ExtensionEndsAt(s, i + 4) && Lower(s[i + 3]) == 'b') ||
       (ExtensionEndsAt(s, i + 5) && Lower(s[i + 3]) == 't'))
  {
    if i + 4 <= |s| {
      GlbAt(s, i);
      if i >= 1 {
        GltfAt(s, i - 1);
      }
    }
    if i + 5 <= |s| {
      GltfAt(s, i);
      GlbAt(s, i + 1);
    }
  }

  /** A match at `j` is found by a search starting at or before `j`. */
  lemma {:induction false} SearchFromFinds(s: string, i: nat, j: nat)
    requires i <= j < |s| && MatchAt(s, j)
    ensures SearchFrom(s, i)
    decreases j - i
  {
    if i < j {
      SearchFromFinds(s, i + 1, j);
    }
  }

  /** A successful search from `i` has a match at some `j` from `i` on. */
  lemma {:induction false} SearchFromMatch(s: string, i: nat) returns (j: nat)
    requires SearchFrom(s, i)
    ensures i <= j < |s| && MatchAt(s, j)
    decreases |s| - i
  {
    if MatchAt(s, i) {
      j := i;
    } else {
      j := SearchFromMatch(s, i + 1);
    }
  }

  /** A string ending in the lower-case `.glb` is found by the search. */
  lemma GlbSuffixFound(s: string)
    ensures |s| >= 4 && s[|s| - 4..] == ".glb" ==> SearchFrom(s, 0)
  {
    if |s| >= 4 && s[|s| - 4..] == ".glb" {
      var i := |s| - 4;
      assert s[i] == '.' && s[i + 1] == 'g' && s[i + 2] == 'l' && s[i + 3] == 'b';
      assert MatchAt(s, i);
      SearchFromFinds(s, 0, i);
    }
  }

  /** `isModelUrl` holds exactly for the strings with a model extension followed by `?`, `#`
      or the end of the string. */
  lemma IsModelUrlSpec(s: string)
    ensures IsModelUrl(s) <==> HasModelExtension(s)
  {
    if IsModelUrl(s) {
      var j := SearchFromMatch(s, 0);
      MatchAtEndsExtension(s, j);
      assert ExtensionEndsAt(s, j + 4) || ExtensionEndsAt(s, j + 5);
    }
    if HasModelExtension(s) {
      var k: nat :| ExtensionEndsAt(s, k);
      var t := s[..k];
      if |t| >= 4 && LowerAll(t[|t| - 4..]) == ".glb" {
        GlbAt(s, k - 4);
        SearchFromFinds(s, 0, k - 4);
      } else {
        GltfAt(s, k - 5);
        SearchFromFinds(s, 0, k - 5);
      }
    }
  }

  /** Any string ending in `.glb` or `.gltf`, optionally followed by a query or fragment,
      is a model URL. */
  lemma ModelUrlWithSuffix(prefix: string, ext: string, tail: string)
    requires LowerAll(ext) == ".glb" || LowerAll(ext) == ".gltf"
    requires tail == [] || tail[0] == '?' || tail[0] == '#'
    ensures IsModelUrl(prefix + ext + tail)
  {
    var s := prefix + ext + tail;
    var k := |prefix + ext|;
    assert s[..k] == prefix + ext;
    assert (prefix + ext)[k - |ext|..] == ext;
    assert ExtensionEndsAt(s, k);
    IsModelUrlSpec(s);
  }

  predicate StartsWith(s: string, prefix: string)
  {
    |prefix| <= |s| && s[..|prefix|] == prefix
  }

  /** `isModelFormat` holds exactly for the strings whose lower-case form starts with `model/`;
      folding only the first six characters, as `IsModelFormat` does, is enough. */
  lemma IsModelFormatSpec(s: string)
    ensures IsModelFormat(s) <==> StartsWith(LowerAll(s), "model/")
  {
  }

  /** Both tests ignore ASCII case. */
  lemma CaseInsensitive(s: string)
    ensures IsModelUrl(s) <==> IsModelUrl(LowerAll(s))
    ensures IsModelFormat(s) <==> IsModelFormat(LowerAll(s))
  {
    var l := LowerAll(s);
    forall i | 0 <= i < |s| ensures Lower(l[i]) == Lower(s[i]) && (l[i] == '?' <==> s[i] == '?') && (l[i] == '#' <==> s[i] == '#') && (l[i] == '.' <==> s[i] == '.') {
    }
    if IsModelUrl(s) {
      var j := SearchFromMatch(s, 0);
      SearchFromFinds(l, 0, j);
    }
    if IsModelUrl(l) {
      var j := SearchFromMatch(l, 0);
      SearchFromFinds(s, 0, j);
    }
    if |s| >= 6 {
      assert LowerAll(l[..6]) == LowerAll(s[..6]);
    }
  }
}
