/**
 * `generateSuchwoerter`: the search words stored with every position for
 * `array-contains` queries.
 *
 * The JavaScript pipeline is: join six text fields with ' ', `toLowerCase()`,
 * replace every character outside `[a-zäöüß0-9\s\/\-]` by ' ', split on
 * `/\s+/`, keep words of length at least 3, remove duplicates keeping the
 * first occurrence (`[...new Set(...)]`), keep the first 40.
 */
module Suchwoerter {
  import opened Wrappers
  import opened Seqs
  import opened Positions

  /** `woerter.slice(0, 40)`: at most 40 search words. */
  const MaxWords: nat := 40
  /** `filter(w => w.length >= 3)`. */
  const MinWordLength: nat := 3

  /** `\s` of JavaScript regular expressions: the WhiteSpace and LineTerminator code points. */
  predicate IsSpace(c: char)
  {
    || c == '\t' || c == '\n' || c == '\U{000B}' || c == '\U{000C}' || c == '\r' || c == ' '
    || c == '\U{00A0}' || c == '\U{1680}' || ('\U{2000}' <= c <= '\U{200A}')
    || c == '\U{2028}' || c == '\U{2029}' || c == '\U{202F}' || c == '\U{205F}'
    || c == '\U{3000}' || c == '\U{FEFF}'
  }

  /** Membership in the class `[a-zäöüß0-9\s\/\-]` that the cleaning step keeps. */
  predicate IsKept(c: char)
  {
    || ('a' <= c <= 'z') || c == 'ä' || c == 'ö' || c == 'ü' || c == 'ß'
    || ('0' <= c <= '9') || IsSpace(c) || c == '/' || c == '-'
  }

  /** A character that may occur inside a search word. */
  predicate IsWordChar(c: char)
  {
    IsKept(c) && !IsSpace(c)
  }

  /**
   * `toLowerCase()` of one character, exact for every character whose lower
   * case lies in the kept class and is a single character: A-Z, Ä, Ö, Ü,
   * capital sharp s (U+1E9E) and the Kelvin sign (U+212A). Any other
   * character is left as it is; neither it nor its real lower case is kept,
   * so the cleaning step blanks it either way.
   */
  function LowerChar(c: char): char
  {
    if 'A' <= c <= 'Z' then (c as int + 32) as char
    else if c == 'Ä' then 'ä'
    else if c == 'Ö' then 'ö'
    else if c == 'Ü' then 'ü'
    else if c == '\U{1E9E}' then 'ß'
    else if c == '\U{212A}' then 'k'
    else c
  }

  /**
   * What `LowerChar` does: `A`-`Z` become `a`-`z`, `Ä Ö Ü ẞ` become
   * `ä ö ü ß`, the Kelvin sign becomes `k`, and every other character,
   * the kept class included, stays as it is.
   */
  lemma LowerCharCases(c: char)
    ensures IsKept(c) ==> LowerChar(c) == c
    ensures 'A' <= c <= 'Z' ==> 'a' <= LowerChar(c) <= 'z' && LowerChar(c) as int - 'a' as int == c as int - 'A' as int
    ensures c == 'Ä' ==> LowerChar(c) == 'ä'
    ensures c == 'Ö' ==> LowerChar(c) == 'ö'
    ensures c == 'Ü' ==> LowerChar(c) == 'ü'
    ensures c == '\U{1E9E}' ==> LowerChar(c) == 'ß'
    ensures c == '\U{212A}' ==> LowerChar(c) == 'k'
    ensures !('A' <= c <= 'Z') && c != 'Ä' && c != 'Ö' && c != 'Ü' && c != '\U{1E9E}' && c != '\U{212A}' ==> LowerChar(c) == c
  {
  }

  /** `String.prototype.toLowerCase` in the character model of `LowerChar`. */
  function ToLower(s: string): (r: string)
    ensures |r| == |s|
  {
    Map(LowerChar, s)
  }

  /** Lower-casing works character by character. */
  lemma ToLowerAt(s: string)
    ensures forall i :: 0 <= i < |s| ==> ToLower(s)[i] == LowerChar(s[i])
  {
    MapAt(LowerChar, s);
  }

  /** Lower-casing leaves text made of kept characters alone. */
  lemma ToLowerKept(s: string)
    requires forall i :: 0 <= i < |s| ==> IsKept(s[i])
    ensures ToLower(s) == s
  {
    ToLowerAt(s);
    forall i | 0 <= i < |s|
      ensures ToLower(s)[i] == s[i]
    {
      LowerCharCases(s[i]);
    }
  }

  /** Lower-casing a concatenation lower-cases each part. */
  lemma ToLowerAppend(a: string, b: string)
    ensures ToLower(a + b) == ToLower(a) + ToLower(b)
  {
    MapAppend(LowerChar, a, b);
  }

  /** One character of `replace(/[^a-zäöüß0-9\s\/\-]/g, ' ')`. */
  function BlankChar(c: char): char
  {
    if IsKept(c) then c else ' '
  }

  /** `replace(/[^a-zäöüß0-9\s\/\-]/g, ' ')`: every character outside the kept class becomes ' '. */
  function Blank(s: string): (r: string)
    ensures |r| == |s|
  {
    Map(BlankChar, s)
  }

  /** Cleaning works character by character: kept characters stay, every other one becomes ' '. */
  lemma BlankAt(s: string)
    ensures forall i :: 0 <= i < |s| ==> IsKept(s[i]) ==> Blank(s)[i] == s[i]
    ensures forall i :: 0 <= i < |s| ==> !IsKept(s[i]) ==> Blank(s)[i] == ' '
  {
    MapAt(BlankChar, s);
  }

  /** Cleaning a concatenation cleans each part. */
  lemma BlankAppend(a: string, b: string)
    ensures Blank(a + b) == Blank(a) + Blank(b)
  {
    MapAppend(BlankChar, a, b);
  }

  /** Text made of kept characters is left as it is by the cleaning step. */
  lemma BlankKept(s: string)
    requires forall i :: 0 <= i < |s| ==> IsKept(s[i])
    ensures Blank(s) == s
  {
    BlankAt(s);
  }

  /** A character that cannot be part of a word is whitespace after cleaning. */
  lemma BlankSeparator(s: string, i: nat)
    requires i < |s| && !IsWordChar(s[i])
    ensures IsSpace(Blank(s)[i])
  {
    BlankAt(s);
  }

  /**
   * `split(/\s+/)`: the pieces between maximal runs of whitespace. As in
   * JavaScript, a leading or trailing run gives an empty first or last piece
   * and the empty string gives `[""]`.
   */
  function Split(s: string): (r: seq<string>)
    ensures |r| >= 1
    ensures s != [] && IsSpace(s[0]) ==> r[0] == ""
  {
    if s == [] then [""]
    else
      var rest := Split(s[1..]);
      if !IsSpace(s[0]) then [[s[0]] + rest[0]] + rest[1..]
      else if |s| > 1 && IsSpace(s[1]) then rest
      else [""] + rest
  }

  /** A whitespace character followed by more whitespace adds nothing. */
  lemma SplitSpaceSpace(c: char, u: string)
    requires IsSpace(c) && u != [] && IsSpace(u[0])
    ensures Split([c] + u) == Split(u)
  {
    assert ([c] + u)[0] == c && ([c] + u)[1] == u[0] && ([c] + u)[1..] == u;
  }

  /** The last whitespace character of a run ends a piece. */
  lemma SplitSpaceEnd(c: char, u: string)
    requires IsSpace(c) && (u == [] || !IsSpace(u[0]))
    ensures Split([c] + u) == [""] + Split(u)
  {
    assert ([c] + u)[0] == c && ([c] + u)[1..] == u;
  }

  /** A maximal run of whitespace at the front gives an empty first piece and nothing else. */
  lemma {:induction false} SplitRun(sp: string, s: string)
    requires sp != [] && forall i :: 0 <= i < |sp| ==> IsSpace(sp[i])
    requires s == [] || !IsSpace(s[0])
    ensures Split(sp + s) == [""] + Split(s)
  {
    var tail := sp[1..] + s;
    assert sp + s == [sp[0]] + tail;
    if |sp| > 1 {
      SplitRun(sp[1..], s);
      assert tail[0] == sp[1];
      SplitSpaceSpace(sp[0], tail);
    } else {
      assert tail == s;
      SplitSpaceEnd(sp[0], tail);
    }
  }

  /** A character that is not whitespace starts the first piece. */
  lemma SplitCons(c: char, u: string)
    requires !IsSpace(c)
    ensures Split([c] + u) == [[c] + Split(u)[0]] + Split(u)[1..]
  {
    assert ([c] + u)[0] == c && ([c] + u)[1..] == u;
  }

  /** A word at the front becomes the start of the first piece. */
  lemma {:induction false} SplitWordPrefix(w: string, r: string)
    requires forall i :: 0 <= i < |w| ==> !IsSpace(w[i])
    ensures Split(w + r) == [w + Split(r)[0]] + Split(r)[1..]
  {
    if w == [] {
      assert w + r == r;
      assert Split(r) == [Split(r)[0]] + Split(r)[1..];
      assert w + Split(r)[0] == Split(r)[0];
    } else {
      var tail := w[1..] + r;
      SplitWordPrefix(w[1..], r);
      assert w + r == [w[0]] + tail;
      SplitCons(w[0], tail);
      assert [w[0]] + (w[1..] + Split(r)[0]) == w + Split(r)[0];
    }
  }
  /** A word followed by a maximal run of whitespace is one piece; splitting goes on after the run. */
  lemma SplitWord(w: string, sp: string, s: string)
    requires forall i :: 0 <= i < |w| ==> !IsSpace(w[i])
    requires sp != [] && forall i :: 0 <= i < |sp| ==> IsSpace(sp[i])
    requires s == [] || !IsSpace(s[0])
    ensures Split(w + sp + s) == [w] + Split(s)
  {
    var u := sp + s;
    assert w + sp + s == w + u;
    SplitRun(sp, s);
    var pieces := Split(u);
    assert pieces[0] == "" && pieces[1..] == Split(s);
    SplitWordPrefix(w, u);
    assert w + pieces[0] == w;
  }
  /** A word without whitespace is its own single piece. */
  lemma SplitSingleWord(w: string)
    requires forall i :: 0 <= i < |w| ==> !IsSpace(w[i])
    ensures Split(w) == [w]
  {
    SplitWordPrefix(w, "");
    assert w + "" == w;
  }

  /** Every character adds at most one piece. */
  lemma {:induction false} SplitLength(s: string)
    ensures |Split(s)| <= |s| + 1
  {
    if s != [] {
      SplitLength(s[1..]);
    }
  }

  /** The step of `SplitEndsInSpace`: a leading character keeps the empty last piece. */
  lemma EndsInSpaceStep(a: string)
    requires |a| >= 2
    requires |Split(a[1..])| >= 2 && Split(a[1..])[|Split(a[1..])| - 1] == ""
    ensures |Split(a)| >= 2 && Split(a)[|Split(a)| - 1] == ""
  {
    var rest := Split(a[1..]);
    var p := Split(a);
    if !IsSpace(a[0]) {
      assert p == [[a[0]] + rest[0]] + rest[1..];
      ReplaceFirst([a[0]] + rest[0], rest);
      assert |p| >= 2 && p[|p| - 1] == "";
    } else if IsSpace(a[1]) {
      assert p == rest;
    } else {
      assert p == [""] + rest;
      assert p[|p| - 1] == rest[|rest| - 1];
    }
  }

  /** Changing the first element keeps the length and the last element. */
  lemma ReplaceFirst<T>(x: T, ys: seq<T>)
    requires |ys| >= 2
    ensures |[x] + ys[1..]| == |ys| && ([x] + ys[1..])[|ys| - 1] == ys[|ys| - 1]
  {
  }

  /** A text ended by whitespace has at least two pieces, the last one empty. */
  lemma {:induction false} SplitEndsInSpace(a: string)
    requires a != [] && IsSpace(a[|a| - 1])
    ensures |Split(a)| >= 2 && Split(a)[|Split(a)| - 1] == ""
  {
    if |a| == 1 {
      assert Split(a) == [""] + Split(a[1..]);
    } else {
      assert a[1..][|a| - 2] == a[|a| - 1];
      SplitEndsInSpace(a[1..]);
      EndsInSpaceStep(a);
    }
  }

  /** Putting a character in front of the first piece commutes with replacing the last piece. */
  lemma ConsPieces(x: string, pu: seq<string>, ps: seq<string>)
    requires |pu| >= 2
    ensures ([x + pu[0]] + pu[1..])[..|pu| - 1] + ps
      == [x + (pu[..|pu| - 1] + ps)[0]] + (pu[..|pu| - 1] + ps)[1..]
  {
    var q := pu[..|pu| - 1] + ps;
    assert q[0] == pu[0];
    assert q[1..] == pu[1..|pu| - 1] + ps;
    assert ([x + pu[0]] + pu[1..])[..|pu| - 1] == [x + pu[0]] + pu[1..|pu| - 1];
  }

  /** Putting an empty piece in front commutes with replacing the last piece. */
  lemma EmptyPiece(pu: seq<string>, ps: seq<string>)
    requires |pu| >= 1
    ensures ([""] + pu)[..|pu|] + ps == [""] + (pu[..|pu| - 1] + ps)
  {
    assert ([""] + pu)[..|pu|] == [""] + pu[..|pu| - 1];
  }

  /** The step of `SplitAfterSpace` for a leading character that is not whitespace. */
  lemma AfterSpaceCons(c: char, u: string, s: string)
    requires !IsSpace(c) && |Split(u)| >= 2
    requires Split(u + s) == Split(u)[..|Split(u)| - 1] + Split(s)
    ensures |Split([c] + u)| >= 2
    ensures Split([c] + (u + s)) == Split([c] + u)[..|Split([c] + u)| - 1] + Split(s)
  {
    SplitCons(c, u);
    SplitCons(c, u + s);
    ConsPieces([c], Split(u), Split(s));
  }

  /** The step of `SplitAfterSpace` for whitespace followed by more whitespace. */
  lemma AfterSpaceSpace(c: char, u: string, s: string)
    requires IsSpace(c) && u != [] && IsSpace(u[0]) && |Split(u)| >= 2
    requires Split(u + s) == Split(u)[..|Split(u)| - 1] + Split(s)
    ensures |Split([c] + u)| >= 2
    ensures Split([c] + (u + s)) == Split([c] + u)[..|Split([c] + u)| - 1] + Split(s)
  {
    SplitSpaceSpace(c, u);
    assert (u + s)[0] == u[0];
    SplitSpaceSpace(c, u + s);
  }

  /** The step of `SplitAfterSpace` for the last whitespace character of a run. */
  lemma AfterSpaceEnd(c: char, u: string, s: string)
    requires IsSpace(c) && u != [] && !IsSpace(u[0]) && |Split(u)| >= 2
    requires Split(u + s) == Split(u)[..|Split(u)| - 1] + Split(s)
    ensures |Split([c] + u)| >= 2
    ensures Split([c] + (u + s)) == Split([c] + u)[..|Split([c] + u)| - 1] + Split(s)
  {
    SplitSpaceEnd(c, u);
    assert (u + s)[0] == u[0];
    SplitSpaceEnd(c, u + s);
    EmptyPiece(Split(u), Split(s));
  }

  /**
   * After a text ended by whitespace, splitting resumes with the next word:
   * the empty last piece of the front gives way to the pieces of the rest.
   */
  lemma {:induction false} SplitAfterSpace(a: string, s: string)
    requires a != [] && IsSpace(a[|a| - 1])
    requires s == [] || !IsSpace(s[0])
    ensures |Split(a)| >= 2
    ensures Split(a + s) == Split(a)[..|Split(a)| - 1] + Split(s)
  {
    var c := a[0];
    var u := a[1..];
    assert a == [c] + u;
    assert a + s == [c] + (u + s);
    if u == [] {
      assert u + s == s;
      SplitSpaceEnd(c, u);
      SplitSpaceEnd(c, s);
    } else {
      assert u[|u| - 1] == a[|a| - 1];
      SplitAfterSpace(u, s);
      if !IsSpace(c) {
        AfterSpaceCons(c, u, s);
      } else if IsSpace(u[0]) {
        AfterSpaceSpace(c, u, s);
      } else {
        AfterSpaceEnd(c, u, s);
      }
    }
  }

  /** A word followed by a separator or by the end of the text is the first piece. */
  lemma SplitFirstWord(w: string, b: string)
    requires forall i :: 0 <= i < |w| ==> !IsSpace(w[i])
    requires b == [] || IsSpace(b[0])
    ensures Split(w + b)[0] == w
  {
    SplitWordPrefix(w, b);
    assert Split(b)[0] == "";
    assert w + Split(b)[0] == w;
  }

  /** The first element of the back part is in the whole. */
  lemma InFront<T>(xs: seq<T>, ys: seq<T>, y: T)
    requires ys != [] && ys[0] == y
    ensures y in xs + ys
  {
    assert (xs + ys)[|xs|] == y;
  }

  /** The first piece of the rest is a piece of the text after a separator. */
  lemma SplitFindsAfter(a: string, s: string)
    requires a != [] && IsSpace(a[|a| - 1])
    requires s != [] && !IsSpace(s[0])
    ensures Split(s)[0] in Split(a + s)
  {
    SplitAfterSpace(a, s);
    var pa := Split(a);
    InFront(pa[..|pa| - 1], Split(s), Split(s)[0]);
  }

  /**
   * A word between two separators (or the ends of the text) is one of the
   * pieces.
   */
  lemma SplitFinds(a: string, w: string, b: string)
    requires w != [] && forall i :: 0 <= i < |w| ==> !IsSpace(w[i])
    requires a == [] || IsSpace(a[|a| - 1])
    requires b == [] || IsSpace(b[0])
    ensures w in Split(a + w + b)
  {
    var s := w + b;
    SplitFirstWord(w, b);
    assert Split(s)[0] == w;
    assert a + w + b == a + s;
    if a == [] {
      assert a + s == s;
    } else {
      assert s[0] == w[0];
      SplitFindsAfter(a, s);
    }
  }

  /** `p` occurs in `x` at index `i`, with whitespace or an end of the text on both sides. */
  predicate PieceAt(x: string, i: nat, p: string)
  {
    && i + |p| <= |x| && x[i..i + |p|] == p
    && (i == 0 || IsSpace(x[i - 1]))
    && (i + |p| == |x| || IsSpace(x[i + |p|]))
  }

  /** The empty piece in front of leading whitespace. */
  lemma PieceEmptyFront(x: string)
    requires x != [] && IsSpace(x[0])
    ensures PieceAt(x, 0, "")
  {
  }

  /** A piece at the front of the rest, with the first character put before it. */
  lemma PieceCons(x: string, p: string)
    requires x != [] && PieceAt(x[1..], 0, p)
    ensures PieceAt(x, 0, [x[0]] + p)
  {
    assert x[..1 + |p|] == [x[0]] + x[1..][..|p|];
  }

  /** A piece of the rest, seen from one character earlier. */
  lemma PieceShift(x: string, j: nat, p: string)
    requires x != [] && PieceAt(x[1..], j, p)
    requires j > 0 || IsSpace(x[0])
    ensures PieceAt(x, j + 1, p)
  {
    assert x[j + 1..j + 1 + |p|] == x[1..][j..j + |p|];
  }

  /**
   * Where each piece of the split comes from: piece `k` lies in the text
   * between whitespace or the ends of the text; the first piece starts the
   * text, every later one follows whitespace.
   */
  lemma {:induction false} SplitPieceAt(x: string, k: nat) returns (i: nat)
    requires k < |Split(x)|
    ensures PieceAt(x, i, Split(x)[k])
    ensures k == 0 <==> i == 0
  {
    if x == [] {
      i := 0;
    } else {
      var u := x[1..];
      var r := Split(u);
      if !IsSpace(x[0]) {
        assert Split(x) == [[x[0]] + r[0]] + r[1..];
        if k == 0 {
          var j := SplitPieceAt(u, 0);
          PieceCons(x, r[0]);
          i := 0;
        } else {
          var j := SplitPieceAt(u, k);
          PieceShift(x, j, r[k]);
          i := j + 1;
        }
      } else if |x| > 1 && IsSpace(x[1]) {
        assert Split(x) == r;
        if k == 0 {
          PieceEmptyFront(x);
          i := 0;
        } else {
          var j := SplitPieceAt(u, k);
          PieceShift(x, j, r[k]);
          i := j + 1;
        }
      } else {
        assert Split(x) == [""] + r;
        if k == 0 {
          PieceEmptyFront(x);
          i := 0;
        } else {
          var j := SplitPieceAt(u, k - 1);
          PieceShift(x, j, r[k - 1]);
          i := j + 1;
        }
      }
    }
  }

  /** The pieces hold no whitespace, and only characters of the text. */
  lemma {:induction false} SplitPieces(s: string)
    ensures forall k, c :: 0 <= k < |Split(s)| && c in Split(s)[k] ==> c in s && !IsSpace(c)
  {
    if s != [] {
      var u := s[1..];
      var rest := Split(u);
      SplitPieces(u);
      assert s == [s[0]] + u;
      if !IsSpace(s[0]) {
        SplitCons(s[0], u);
        var r := Split(s);
        forall k, c | 0 <= k < |r| && c in r[k]
          ensures c in s && !IsSpace(c)
        {
          if k == 0 {
            assert c == s[0] || c in rest[0];
          } else {
            assert r[k] == rest[k];
          }
        }
      } else if u != [] && IsSpace(u[0]) {
        SplitSpaceSpace(s[0], u);
      } else {
        SplitSpaceEnd(s[0], u);
        assert forall k :: 1 <= k < |Split(s)| ==> Split(s)[k] == rest[k - 1];
      }
    }
  }

  /** The characters of `s` that are not whitespace, in order. */
  function NonSpace(s: string): string
  {
    if s == [] then [] else (if IsSpace(s[0]) then [] else [s[0]]) + NonSpace(s[1..])
  }

  /** Splitting loses exactly the whitespace: the pieces, put back together, are the rest of the text. */
  lemma {:induction false} SplitKeepsNonSpace(s: string)
    ensures Flatten(Split(s)) == NonSpace(s)
  {
    if s != [] {
      var rest := Split(s[1..]);
      SplitKeepsNonSpace(s[1..]);
      if !IsSpace(s[0]) {
        assert Flatten(rest) == rest[0] + Flatten(rest[1..]);
        assert ([[s[0]] + rest[0]] + rest[1..])[1..] == rest[1..];
      } else if |s| > 1 && IsSpace(s[1]) {
      } else {
        assert ([""] + rest)[1..] == rest;
      }
    }
  }

  /** `filter(w => w.length >= 3)`. */
  function LongWords(ws: seq<string>): (r: seq<string>)
    ensures |r| <= |ws|
  {
    if ws == [] then []
    else (if |ws[0]| >= MinWordLength then [ws[0]] else []) + LongWords(ws[1..])
  }

  /** Filtering a concatenation filters each part, so the filter keeps the order of the words. */
  lemma {:induction false} LongWordsAppend(a: seq<string>, b: seq<string>)
    ensures LongWords(a + b) == LongWords(a) + LongWords(b)
  {
    if a == [] {
      assert a + b == b;
    } else {
      var h := if |a[0]| >= MinWordLength then [a[0]] else [];
      LongWordsAppend(a[1..], b);
      assert (a + b)[0] == a[0] && (a + b)[1..] == a[1..] + b;
      assert LongWords(a + b) == h + LongWords(a[1..] + b);
      assert LongWords(a) == h + LongWords(a[1..]);
    }
  }

  /** The length filter keeps exactly the words of length at least 3. */
  lemma {:induction false} LongWordsMembers(ws: seq<string>)
    ensures forall w :: w in LongWords(ws) <==> w in ws && |w| >= MinWordLength
  {
    if ws != [] {
      LongWordsMembers(ws[1..]);
      assert ws == [ws[0]] + ws[1..];
    }
  }

  /** `[...new Set(ws)]`: each word once, in the order the set first saw it. */
  function Dedup(ws: seq<string>): (r: seq<string>)
    ensures |r| <= |ws|
  {
    if ws == [] then []
    else
      var d := Dedup(ws[..|ws| - 1]);
      var w := ws[|ws| - 1];
      if w in d then d else d + [w]
  }

  /** Deduplication keeps every word and repeats none. */
  lemma {:induction false} DedupMembers(ws: seq<string>)
    ensures forall w :: w in Dedup(ws) <==> w in ws
    ensures Distinct(Dedup(ws))
  {
    if ws != [] {
      var front := ws[..|ws| - 1];
      DedupMembers(front);
      assert ws == front + [ws[|ws| - 1]];
    }
  }

  /** The words of the deduplicated list appear in the order of their first occurrence. */
  lemma {:induction false} DedupFirstOccurrence(ws: seq<string>)
    ensures forall w :: w in Dedup(ws) ==> w in ws
    ensures forall i, j :: 0 <= i < j < |Dedup(ws)| ==>
      FirstIndex(ws, Dedup(ws)[i]) < FirstIndex(ws, Dedup(ws)[j])
  {
    if ws != [] {
      var front := ws[..|ws| - 1];
      var w := ws[|ws| - 1];
      var d := Dedup(front);
      DedupFirstOccurrence(front);
      DedupMembers(front);
      assert ws == front + [w];
      forall x | x in front
        ensures FirstIndex(ws, x) == FirstIndex(front, x) < |front|
      {
        FirstIndexPrefix(front, [w], x);
      }
      if w !in d {
        assert w !in front;
        FirstIndexUnique(ws, w, |front|);
      }
    }
  }

  /** `[...].join(' ')`. */
  function Join(parts: seq<string>, sep: string): string
  {
    if parts == [] then ""
    else if |parts| == 1 then parts[0]
    else parts[0] + sep + Join(parts[1..], sep)
  }

  /** `join` writes `undefined` and `null` as the empty string. */
  function Text(v: Option<string>): string
  {
    v.GetOr("")
  }

  /** The six fields the search words come from, in the order they are joined. */
  function SearchFields(pos: Position): seq<string>
  {
    [Text(pos.positionNr), Text(pos.kurztext), Text(pos.beschreibung),
     Text(pos.hauptgruppe), Text(pos.untergruppe), Text(pos.mengeneinheit)]
  }

  /** The joined, lower-cased and cleaned text. */
  function CleanedText(pos: Position): string
  {
    Blank(ToLower(Join(SearchFields(pos), " ")))
  }

  /** The long words of a text after cleaning and splitting, with repetitions, in text order. */
  function TextWords(t: string): seq<string>
  {
    LongWords(Split(Blank(t)))
  }

  /** Every word of the cleaned text that is long enough, with repetitions, in text order. */
  function Candidates(pos: Position): seq<string>
  {
    TextWords(ToLower(Join(SearchFields(pos), " ")))
  }

  /** `slice(0, 40)`. */
  function Cap(ws: seq<string>): seq<string>
  {
    ws[..Min(MaxWords, |ws|)]
  }

  /** `generateSuchwoerter(pos)`. */
  function GenerateSuchwoerter(pos: Position): seq<string>
  {
    Cap(Dedup(Candidates(pos)))
  }

  /** Cleaned text holds kept characters only. */
  lemma BlankKeeps(t: string)
    ensures forall c :: c in Blank(t) ==> IsKept(c)
  {
    BlankAt(t);
    forall c | c in Blank(t)
      ensures IsKept(c)
    {
      var i :| 0 <= i < |t| && Blank(t)[i] == c;
    }
  }

  /** Each piece of a cleaned text is made of word characters only. */
  lemma CleanedPieceChars(t: string, k: nat)
    requires k < |Split(Blank(t))|
    ensures forall c :: c in Split(Blank(t))[k] ==> IsWordChar(c)
  {
    SplitPieces(Blank(t));
    BlankKeeps(t);
  }

  /** Every long word of a cleaned text is made of word characters only. */
  lemma CleanedWordsWellFormed(t: string)
    ensures forall w :: w in LongWords(Split(Blank(t))) ==>
      |w| >= MinWordLength && forall c :: c in w ==> IsWordChar(c)
  {
    var pieces := Split(Blank(t));
    LongWordsMembers(pieces);
    forall w | w in LongWords(pieces)
      ensures |w| >= MinWordLength && forall c :: c in w ==> IsWordChar(c)
    {
      var k :| 0 <= k < |pieces| && pieces[k] == w;
      CleanedPieceChars(t, k);
    }
  }

  /** Every candidate is a word of length at least 3 made of word characters only. */
  lemma CandidatesWellFormed(pos: Position)
    ensures forall w :: w in Candidates(pos) ==>
      |w| >= MinWordLength && forall c :: c in w ==> IsWordChar(c)
  {
    CleanedWordsWellFormed(ToLower(Join(SearchFields(pos), " ")));
  }

  /** The capped deduplicated list: a prefix, in first-occurrence order, complete below the cap. */
  lemma CapDedup(cs: seq<string>)
    ensures Cap(Dedup(cs)) <= Dedup(cs)
    ensures |Cap(Dedup(cs))| == Min(MaxWords, |Dedup(cs)|)
    ensures Distinct(Cap(Dedup(cs)))
    ensures forall w :: w in Cap(Dedup(cs)) ==> w in cs
    ensures forall w :: w in cs ==> w in Cap(Dedup(cs)) || |Cap(Dedup(cs))| == MaxWords
    ensures forall i, j :: 0 <= i < j < |Cap(Dedup(cs))| ==>
      FirstIndex(cs, Cap(Dedup(cs))[i]) < FirstIndex(cs, Cap(Dedup(cs))[j])
  {
    var d := Dedup(cs);
    var r := Cap(d);
    DedupFirstOccurrence(cs);
    DedupMembers(cs);
    assert forall i :: 0 <= i < |r| ==> r[i] == d[i];
    forall w | w in cs && |r| < MaxWords
      ensures w in r
    {
      assert r == d;
    }
  }

  /**
   * At most 40 words, pairwise distinct, each at least 3 characters long and
   * made only of a-z, ä, ö, ü, ß, digits, '/' and '-' (so no whitespace and
   * no upper case).
   */
  lemma SuchwoerterWellFormed(pos: Position)
    ensures |GenerateSuchwoerter(pos)| <= MaxWords
    ensures Distinct(GenerateSuchwoerter(pos))
    ensures forall w :: w in GenerateSuchwoerter(pos) ==>
      |w| >= MinWordLength && forall c :: c in w ==> IsWordChar(c)
  {
    CapDedup(Candidates(pos));
    CandidatesWellFormed(pos);
  }

  /**
   * The result is the first `min(40, n)` of the `n` distinct candidates, in
   * the order of their first occurrence in the joined text; below the cap no
   * candidate is missing.
   */
  lemma SuchwoerterFirstOccurrence(pos: Position)
    ensures GenerateSuchwoerter(pos) <= Dedup(Candidates(pos))
    ensures |GenerateSuchwoerter(pos)| == Min(MaxWords, |Dedup(Candidates(pos))|)
    ensures forall w :: w in GenerateSuchwoerter(pos) ==> w in Candidates(pos)
    ensures forall w :: w in Candidates(pos) ==> w in GenerateSuchwoerter(pos) || |GenerateSuchwoerter(pos)| == MaxWords
    ensures forall i, j :: 0 <= i < j < |GenerateSuchwoerter(pos)| ==>
      FirstIndex(Candidates(pos), GenerateSuchwoerter(pos)[i]) < FirstIndex(Candidates(pos), GenerateSuchwoerter(pos)[j])
  {
    CapDedup(Candidates(pos));
  }

  /** Joining empty strings with ' ' gives nothing but spaces. */
  lemma {:induction false} JoinEmptyParts(parts: seq<string>)
    requires forall k :: 0 <= k < |parts| ==> parts[k] == ""
    ensures forall i :: 0 <= i < |Join(parts, " ")| ==> Join(parts, " ")[i] == ' '
  {
    if |parts| > 1 {
      JoinEmptyParts(parts[1..]);
      assert Join(parts, " ") == " " + Join(parts[1..], " ");
    }
  }

  /** Text made only of whitespace splits into empty pieces. */
  lemma {:induction false} SplitSpaces(s: string)
    requires forall i :: 0 <= i < |s| ==> IsSpace(s[i])
    ensures forall k :: 0 <= k < |Split(s)| ==> Split(s)[k] == ""
  {
    if s != [] {
      SplitSpaces(s[1..]);
    }
  }

  /** Only short words: nothing survives the length filter. */
  lemma {:induction false} LongWordsOfShort(ws: seq<string>)
    requires forall k :: 0 <= k < |ws| ==> |ws[k]| < MinWordLength
    ensures LongWords(ws) == []
  {
    if ws != [] {
      LongWordsOfShort(ws[1..]);
    }
  }

  /** Text without word characters has no long words. */
  lemma NoWordCharsNoWords(t: string)
    requires forall i :: 0 <= i < |t| ==> !IsWordChar(t[i])
    ensures LongWords(Split(Blank(t))) == []
  {
    BlankAt(t);
    SplitSpaces(Blank(t));
    LongWordsOfShort(Split(Blank(t)));
  }

  /** A position without any text in the six search fields gets no search words. */
  lemma NoTextNoSuchwoerter(pos: Position)
    requires forall k :: 0 <= k < |SearchFields(pos)| ==> SearchFields(pos)[k] == ""
    ensures GenerateSuchwoerter(pos) == []
  {
    var joined := Join(SearchFields(pos), " ");
    JoinEmptyParts(SearchFields(pos));
    ToLowerKept(joined);
    NoWordCharsNoWords(joined);
  }

  /** A dotted position number such as "2.3.1" is never a search word: '.' is blanked before splitting. */
  lemma DottedNumberIsNoSearchWord(pos: Position, w: string)
    requires '.' in w
    ensures w !in GenerateSuchwoerter(pos)
  {
    SuchwoerterWellFormed(pos);
  }

  /** Deduplication keeps the first word first. */
  lemma {:induction false} DedupHead(ws: seq<string>)
    requires ws != []
    ensures Dedup(ws) != [] && Dedup(ws)[0] == ws[0]
  {
    var front := ws[..|ws| - 1];
    if front != [] {
      DedupHead(front);
    }
  }

  /**
   * `w` occurs in `t` at index `i`, with a character that cannot belong to a
   * word, or an end of the text, on both sides.
   */
  predicate WordAt(t: string, i: nat, w: string)
  {
    && i + |w| <= |t| && t[i..i + |w|] == w
    && (i == 0 || !IsWordChar(t[i - 1]))
    && (i + |w| == |t| || !IsWordChar(t[i + |w|]))
  }

  /** A piece of the cleaned text made of word characters is a delimited word of the text before cleaning. */
  lemma CleanedPieceIsWord(t: string, i: nat, w: string)
    requires PieceAt(Blank(t), i, w)
    requires forall c :: c in w ==> IsWordChar(c)
    ensures WordAt(t, i, w)
  {
    BlankAt(t);
    var x := Blank(t);
    forall j | 0 <= j < |w|
      ensures t[i + j] == w[j]
    {
      assert x[i + j] == x[i..i + |w|][j] == w[j];
      assert w[j] in w;
    }
    assert t[i..i + |w|] == w;
  }

  /**
   * Every word of the lower-cased text, delimited by characters that cannot
   * belong to a word or by the ends of the text, is a candidate; it is a
   * search word unless all 40 places are taken.
   */
  lemma TextWordIsSearchWord(pos: Position, i: nat, w: string)
    requires WordAt(ToLower(Join(SearchFields(pos), " ")), i, w)
    requires |w| >= MinWordLength && forall j :: 0 <= j < |w| ==> IsWordChar(w[j])
    ensures w in Candidates(pos)
    ensures w in GenerateSuchwoerter(pos) || |GenerateSuchwoerter(pos)| == MaxWords
  {
    var t := ToLower(Join(SearchFields(pos), " "));
    var pre := t[..i];
    var post := t[i + |w|..];
    assert t == pre + w + post;
    var a := Blank(pre);
    var b := Blank(post);
    BlankAppend(pre + w, post);
    BlankAppend(pre, w);
    BlankKept(w);
    assert CleanedText(pos) == a + w + b;
    if pre != [] {
      BlankSeparator(pre, |pre| - 1);
    }
    if post != [] {
      BlankSeparator(post, 0);
    }
    SplitFinds(a, w, b);
    LongWordsMembers(Split(a + w + b));
    SuchwoerterFirstOccurrence(pos);
  }

  /**
   * Conversely, every search word is a delimited word of the lower-cased
   * text, at least 3 characters long and made of word characters.
   */
  lemma SearchWordIsTextWord(pos: Position, w: string) returns (i: nat)
    requires w in GenerateSuchwoerter(pos)
    ensures WordAt(ToLower(Join(SearchFields(pos), " ")), i, w)
    ensures |w| >= MinWordLength && forall c :: c in w ==> IsWordChar(c)
  {
    SuchwoerterWellFormed(pos);
    SuchwoerterFirstOccurrence(pos);
    var t := ToLower(Join(SearchFields(pos), " "));
    var pieces := Split(Blank(t));
    LongWordsMembers(pieces);
    var k :| 0 <= k < |pieces| && pieces[k] == w;
    i := SplitPieceAt(Blank(t), k);
    CleanedPieceIsWord(t, i, w);
  }

  /** A word that opens the text, followed by a separator or the end, is the first search word. */
  lemma FirstWordIsFirstSearchWord(pos: Position, w: string, post: string)
    requires ToLower(Join(SearchFields(pos), " ")) == w + post
    requires |w| >= MinWordLength && forall i :: 0 <= i < |w| ==> IsWordChar(w[i])
    requires post == [] || !IsWordChar(post[0])
    ensures GenerateSuchwoerter(pos) != [] && GenerateSuchwoerter(pos)[0] == w
  {
    var b := Blank(post);
    BlankAppend(w, post);
    BlankKept(w);
    if post != [] {
      BlankSeparator(post, 0);
    }
    assert CleanedText(pos) == w + b;
    SplitWordPrefix(w, b);
    var pieces := Split(w + b);
    assert Split(b)[0] == "";
    assert w + Split(b)[0] == w;
    assert pieces[0] == w;
    assert LongWords(pieces)[0] == w;
    DedupHead(Candidates(pos));
  }

  /**
   * A word at the front of a text, followed by a separator or the end,
   * comes before every other word of the text, and counts if it is long
   * enough.
   */
  lemma TextWordsWordFront(w: string, post: string)
    requires forall i :: 0 <= i < |w| ==> IsWordChar(w[i])
    requires post == [] || !IsWordChar(post[0])
    ensures TextWords(w + post) == LongWords([w]) + TextWords(post)
  {
    var b := Blank(post);
    BlankAppend(w, post);
    BlankKept(w);
    if post != [] {
      BlankSeparator(post, 0);
    }
    SplitWordPrefix(w, b);
    var r := Split(b);
    assert r[0] == "";
    assert w + r[0] == w;
    assert Split(w + b) == [w] + r[1..];
    assert r == [""] + r[1..];
    assert Blank(w + post) == w + b;
    LongWordsAppend([w], r[1..]);
    LongWordsAppend([""], r[1..]);
    assert LongWords([""]) == [];
    assert TextWords(post) == LongWords(r[1..]);
    assert TextWords(w + post) == LongWords([w] + r[1..]);
  }

  /** A run of separators at the front of a text, before a word or the end, contributes no word. */
  lemma TextWordsSeparatorFront(s: string, rest: string)
    requires forall i :: 0 <= i < |s| ==> !IsWordChar(s[i])
    requires rest == [] || IsWordChar(rest[0])
    ensures TextWords(s + rest) == TextWords(rest)
  {
    if s == [] {
      assert s + rest == rest;
    } else {
      var a := Blank(s);
      var b := Blank(rest);
      BlankAppend(s, rest);
      forall i | 0 <= i < |a|
        ensures IsSpace(a[i])
      {
        BlankSeparator(s, i);
      }
      if rest != [] {
        BlankAt(rest);
        assert b[0] == rest[0];
      }
      SplitRun(a, b);
      LongWordsAppend([""], Split(b));
    }
  }

  /** Deduplicating a longer list keeps the deduplicated shorter one as its prefix. */
  lemma {:induction false} DedupPrefix(xs: seq<string>, ys: seq<string>)
    ensures Dedup(xs) <= Dedup(xs + ys)
  {
    if ys == [] {
      assert xs + ys == xs;
    } else {
      var front := ys[..|ys| - 1];
      DedupPrefix(xs, front);
      assert xs + ys == (xs + front) + [ys[|ys| - 1]];
      assert (xs + ys)[..|xs + ys| - 1] == xs + front;
    }
  }

  /** Two long words with separators between them are the first two words of the text, in order. */
  lemma TwoTextWords(u: string, s: string, v: string, post: string)
    requires |u| >= MinWordLength && forall i :: 0 <= i < |u| ==> IsWordChar(u[i])
    requires s != [] && forall i :: 0 <= i < |s| ==> !IsWordChar(s[i])
    requires |v| >= MinWordLength && forall i :: 0 <= i < |v| ==> IsWordChar(v[i])
    requires post == [] || !IsWordChar(post[0])
    ensures TextWords(u + s + v + post) == [u, v] + TextWords(post)
  {
    var rest := v + post;
    assert u + s + v + post == u + (s + rest);
    assert (s + rest)[0] == s[0];
    TextWordsWordFront(u, s + rest);
    assert rest[0] == v[0];
    TextWordsSeparatorFront(s, rest);
    TextWordsWordFront(v, post);
    assert LongWords([u]) == [u] && LongWords([v]) == [v];
  }

  /** Two different words at the front stay the first two after deduplication and the cap. */
  lemma CapDedupTwo(u: string, v: string, l: seq<string>)
    requires u != v
    ensures |Cap(Dedup([u, v] + l))| >= 2
    ensures Cap(Dedup([u, v] + l))[0] == u && Cap(Dedup([u, v] + l))[1] == v
  {
    DedupPrefix([u, v], l);
    assert [u, v][..1] == [u];
    assert Dedup([u, v]) == [u, v];
  }

  /** Two different long words in a row open the search words in text order. */
  lemma TwoWordsInOrder(pos: Position, u: string, s: string, v: string, post: string)
    requires ToLower(Join(SearchFields(pos), " ")) == u + s + v + post
    requires |u| >= MinWordLength && forall i :: 0 <= i < |u| ==> IsWordChar(u[i])
    requires s != [] && forall i :: 0 <= i < |s| ==> !IsWordChar(s[i])
    requires |v| >= MinWordLength && forall i :: 0 <= i < |v| ==> IsWordChar(v[i])
    requires post == [] || !IsWordChar(post[0])
    requires u != v
    ensures |GenerateSuchwoerter(pos)| >= 2
    ensures GenerateSuchwoerter(pos)[0] == u && GenerateSuchwoerter(pos)[1] == v
  {
    TwoTextWords(u, s, v, post);
    CapDedupTwo(u, v, TextWords(post));
  }

  /** The length of the run of word characters that opens `a`. */
  function WordRun(a: string): (k: nat)
    ensures k <= |a|
    ensures forall i :: 0 <= i < k ==> IsWordChar(a[i])
    ensures k < |a| ==> !IsWordChar(a[k])
  {
    if a == [] || !IsWordChar(a[0]) then 0
    else
      var k := WordRun(a[1..]);
      assert forall i :: 1 <= i < 1 + k ==> a[i] == a[1..][i - 1];
      1 + k
  }

  /** A run of separators in front of any text contributes no word. */
  lemma {:induction false} TextWordsSepAny(sp: string, b: string)
    requires sp != [] && forall i :: 0 <= i < |sp| ==> !IsWordChar(sp[i])
    ensures TextWords(sp + b) == TextWords(b)
    decreases |b|
  {
    if b == [] || IsWordChar(b[0]) {
      TextWordsSeparatorFront(sp, b);
    } else {
      var c := [b[0]];
      var u := b[1..];
      assert b == c + u;
      assert sp + b == (sp + c) + u;
      TextWordsSepAny(sp + c, u);
      TextWordsSepAny(c, u);
    }
  }

  /** Splitting off the same front from a whole and from its first part. */
  lemma ConcatStep<T>(whole: seq<T>, front: seq<T>, restWhole: seq<T>, a: seq<T>, restA: seq<T>, b: seq<T>)
    requires whole == front + restWhole && a == front + restA && restWhole == restA + b
    ensures whole == a + b
  {
    assert front + (restA + b) == (front + restA) + b;
  }

  /** Cutting `a` at `k` inside `a + sp + b`. */
  lemma CutAt<T>(a: seq<T>, k: nat, sp: seq<T>, b: seq<T>)
    requires k <= |a| && sp != []
    ensures a == a[..k] + a[k..]
    ensures a + sp + b == a[..k] + (a[k..] + sp + b)
    ensures (a[k..] + sp + b)[0] == if k < |a| then a[k] else sp[0]
  {
  }

  /** The step of `TextWordsAppendSep` for a text that opens with a separator. */
  lemma AppendSepSeparatorFront(a: string, sp: string, b: string)
    requires sp != [] && forall i :: 0 <= i < |sp| ==> !IsWordChar(sp[i])
    requires a != [] && !IsWordChar(a[0])
    requires TextWords(a[1..] + sp + b) == TextWords(a[1..]) + TextWords(b)
    ensures TextWords(a + sp + b) == TextWords(a) + TextWords(b)
  {
    CutAt(a, 1, sp, b);
    var c := a[..1];
    assert c[0] == a[0];
    TextWordsSepAny(c, a[1..] + sp + b);
    TextWordsSepAny(c, a[1..]);
  }

  /** The step of `TextWordsAppendSep` for a text that opens with the word `a[..k]`. */
  lemma AppendSepWordFront(a: string, k: nat, sp: string, b: string)
    requires sp != [] && forall i :: 0 <= i < |sp| ==> !IsWordChar(sp[i])
    requires k <= |a| && forall i :: 0 <= i < k ==> IsWordChar(a[i])
    requires k < |a| ==> !IsWordChar(a[k])
    requires TextWords(a[k..] + sp + b) == TextWords(a[k..]) + TextWords(b)
    ensures TextWords(a + sp + b) == TextWords(a) + TextWords(b)
  {
    CutAt(a, k, sp, b);
    var w := a[..k];
    var u := a[k..];
    var post := u + sp + b;
    assert forall i :: 0 <= i < |w| ==> w[i] == a[i];
    TextWordsWordFront(w, post);
    TextWordsWordFront(w, u);
    ConcatStep(TextWords(a + sp + b), LongWords([w]), TextWords(post), TextWords(a), TextWords(u), TextWords(b));
  }

  /** Separators between two texts keep their words apart: the words of the whole are those of the parts. */
  lemma {:induction false} TextWordsAppendSep(a: string, sp: string, b: string)
    requires sp != [] && forall i :: 0 <= i < |sp| ==> !IsWordChar(sp[i])
    ensures TextWords(a + sp + b) == TextWords(a) + TextWords(b)
    decreases |a|
  {
    if a == [] {
      assert a + sp + b == sp + b;
      TextWordsSepAny(sp, b);
      assert TextWords(a) == [];
    } else if !IsWordChar(a[0]) {
      TextWordsAppendSep(a[1..], sp, b);
      AppendSepSeparatorFront(a, sp, b);
    } else {
      var k := WordRun(a);
      TextWordsAppendSep(a[k..], sp, b);
      AppendSepWordFront(a, k, sp, b);
    }
  }

  /** The words of two texts joined with ' ' are the words of the first, then those of the second. */
  lemma TextWordsJoin(a: string, b: string)
    ensures TextWords(a + " " + b) == TextWords(a) + TextWords(b)
  {
    TextWordsAppendSep(a, " ", b);
  }

  /** The search-word candidates that one field contributes on its own. */
  function FieldWords(f: string): seq<string>
  {
    TextWords(ToLower(f))
  }

  /** Joining one more field in front with ' ' puts its words in front. */
  lemma JoinFieldWords(p: string, parts: seq<string>)
    requires parts != []
    ensures TextWords(ToLower(Join([p] + parts, " "))) == FieldWords(p) + TextWords(ToLower(Join(parts, " ")))
  {
    var rest := Join(parts, " ");
    assert ([p] + parts)[0] == p && ([p] + parts)[1..] == parts;
    assert Join([p] + parts, " ") == p + " " + rest;
    ToLowerAppend(p + " ", rest);
    ToLowerAppend(p, " ");
    assert ToLower(" ") == " ";
    TextWordsJoin(ToLower(p), ToLower(rest));
  }

  /** Six fields joined with ' ': the words of each field in turn. */
  lemma SixFieldWords(a: string, b: string, c: string, d: string, e: string, f: string)
    ensures TextWords(ToLower(Join([a, b, c, d, e, f], " "))) ==
      FieldWords(a) + (FieldWords(b) + (FieldWords(c) + (FieldWords(d) + (FieldWords(e) + FieldWords(f)))))
  {
    var p5 := [f];
    var p4 := [e] + p5;
    var p3 := [d] + p4;
    var p2 := [c] + p3;
    var p1 := [b] + p2;
    assert [a, b, c, d, e, f] == [a] + p1;
    assert Join(p5, " ") == f;
    JoinFieldWords(e, p5);
    JoinFieldWords(d, p4);
    JoinFieldWords(c, p3);
    JoinFieldWords(b, p2);
    JoinFieldWords(a, p1);
  }

  /**
   * The candidates are the words of `position_nr`, `kurztext`,
   * `beschreibung`, `hauptgruppe`, `untergruppe` and `mengeneinheit`, in
   * that order; an absent field contributes nothing.
   */
  lemma CandidatesByField(pos: Position)
    ensures Candidates(pos) ==
      FieldWords(Text(pos.positionNr)) + (FieldWords(Text(pos.kurztext)) + (FieldWords(Text(pos.beschreibung)) +
      (FieldWords(Text(pos.hauptgruppe)) + (FieldWords(Text(pos.untergruppe)) + FieldWords(Text(pos.mengeneinheit))))))
    ensures FieldWords("") == []
  {
    SixFieldWords(Text(pos.positionNr), Text(pos.kurztext), Text(pos.beschreibung),
      Text(pos.hauptgruppe), Text(pos.untergruppe), Text(pos.mengeneinheit));
    assert ToLower("") == "";
  }
}
