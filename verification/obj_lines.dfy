/**
 * OBJ lines as both mesh readers see them after `getline`: the command word
 * has been read, `v` and `vn` coordinates are already numbers, and an `f`
 * line keeps the text after its command, which is then cut into words.
 *
 * The readers cut that text with `while (ss.good()) { ss >> a; ... }`. When
 * the text ends in white space, the last extraction fails and still hands
 * back an empty word (`LoopWords`). `Words` is the word list that
 * `while (ss >> a)` would give; the readers here use it.
 */
module ObjLines {
  import opened Homogeneous
  import opened Text

  datatype ObjLine =
    | VertexLine(x: real, y: real, z: real)
    | NormalLine(x: real, y: real, z: real)
    | FaceLine(text: string)
    | OtherLine

  /** The length of the longest prefix without white space. */
  function WordRun(s: string): (k: nat)
    ensures k <= |s|
    ensures forall i :: 0 <= i < k ==> !IsSpace(s[i])
    ensures k == |s| || IsSpace(s[k])
  {
    if s == [] || IsSpace(s[0]) then 0 else 1 + WordRun(s[1..])
  }

  /** A word: non-empty and free of white space. */
  predicate IsWord(w: string)
  {
    |w| > 0 && forall i :: 0 <= i < |w| ==> !IsSpace(w[i])
  }

  /** The words `while (ss >> a)` extracts: maximal runs of non-white-space characters. */
  function Words(s: string): (r: seq<string>)
    ensures forall k :: 0 <= k < |r| ==> IsWord(r[k])
    decreases |s|
  {
    var t := s[SpaceRun(s)..];
    if t == [] then []
    else
      var k := WordRun(t);
      [t[..k]] + Words(t[k..])
  }

  /**
   * The words `while (ss.good()) { ss >> a; ... }` hands on, for the text
   * after the command word: the stream is at its end once a word reaches the
   * end of the text, and an extraction that finds only white space yields "".
   */
  function LoopWords(s: string): seq<string>
    decreases |s|
  {
    if s == [] then []
    else
      var t := s[SpaceRun(s)..];
      if t == [] then [""]
      else
        var k := WordRun(t);
        [t[..k]] + LoopWords(t[k..])
  }

  /**
   * The loop sees the same words as `while (ss >> a)`, plus one empty word
   * exactly when the text ends in white space.
   */
  lemma {:induction false} LoopWordsTrailing(s: string)
    ensures LoopWords(s) == Words(s) + Trailing(s)
    decreases |s|
  {
    if s != [] {
      var t := s[SpaceRun(s)..];
      if t != [] {
        var k := WordRun(t);
        var rest := t[k..];
        FirstWord(s, t, k);
        LoopWordsTrailing(rest);
        AppendTrailing([t[..k]], Words(rest), Trailing(rest), Trailing(s));
      } else {
        assert IsSpace(s[|s| - 1]);
      }
    }
  }

  lemma AppendTrailing(w: seq<string>, ws: seq<string>, x: seq<string>, y: seq<string>)
    requires x == y
    ensures w + (ws + x) == (w + ws) + y
  {
  }

  /** The text's last character is white space. */
  predicate EndsInSpace(s: string)
  {
    |s| > 0 && IsSpace(s[|s| - 1])
  }

  /** The empty word the loop adds after text ending in white space. */
  function Trailing(s: string): seq<string>
  {
    if EndsInSpace(s) then [""] else []
  }

  /** Both loops take the same first word, and what follows it ends in white space exactly when s does. */
  lemma FirstWord(s: string, t: string, k: nat)
    requires t == s[SpaceRun(s)..] && t != [] && k == WordRun(t)
    ensures LoopWords(s) == [t[..k]] + LoopWords(t[k..])
    ensures Words(s) == [t[..k]] + Words(t[k..])
    ensures EndsInSpace(t[k..]) <==> EndsInSpace(s)
  {
    if |t[k..]| == 0 {
      assert k > 0;
      assert s[|s| - 1] == t[k - 1];
    } else {
      assert t[k..][|t[k..]| - 1] == s[|s| - 1];
    }
  }

  /** Leading white space, then a word, then text that is empty or starts with white space. */
  lemma WordsStep(sp: string, w: string, rest: string)
    requires forall i :: 0 <= i < |sp| ==> IsSpace(sp[i])
    requires IsWord(w)
    requires rest == [] || IsSpace(rest[0])
    ensures Words(sp + w + rest) == [w] + Words(rest)
  {
    var s := sp + w + rest;
    SpaceRunPrefix(sp, w + rest);
    assert s == sp + (w + rest);
    assert s[SpaceRun(s)..] == w + rest;
    WordRunPrefix(w, rest);
    assert (w + rest)[..|w|] == w;
    assert (w + rest)[|w|..] == rest;
  }

  lemma {:induction false} SpaceRunPrefix(sp: string, u: string)
    requires forall i :: 0 <= i < |sp| ==> IsSpace(sp[i])
    requires u == [] || !IsSpace(u[0])
    ensures SpaceRun(sp + u) == |sp|
    decreases |sp|
  {
    if sp != [] {
      assert (sp + u)[1..] == sp[1..] + u;
      SpaceRunPrefix(sp[1..], u);
    } else {
      assert sp + u == u;
    }
  }

  lemma {:induction false} WordRunPrefix(w: string, rest: string)
    requires forall i :: 0 <= i < |w| ==> !IsSpace(w[i])
    requires rest == [] || IsSpace(rest[0])
    ensures WordRun(w + rest) == |w|
    decreases |w|
  {
    if w != [] {
      assert (w + rest)[1..] == w[1..] + rest;
      WordRunPrefix(w[1..], rest);
    } else {
      assert w + rest == rest;
    }
  }

  /** Text made only of white space holds no words. */
  lemma WordsOfSpaces(sp: string)
    requires forall i :: 0 <= i < |sp| ==> IsSpace(sp[i])
    ensures Words(sp) == []
  {
    SpaceRunPrefix(sp, []);
    assert sp + [] == sp;
  }

  /** `vecv`: one point per `v` line, in file order, with w = 1. */
  function VertexPositions(lines: seq<ObjLine>): seq<Vec4>
  {
    if lines == [] then []
    else (if lines[0].VertexLine? then [Vec4(lines[0].x, lines[0].y, lines[0].z, 1.0)] else [])
         + VertexPositions(lines[1..])
  }

  /** `vecn`: one vector per `vn` line, in file order, with w = 1. */
  function Normals(lines: seq<ObjLine>): seq<Vec4>
  {
    if lines == [] then []
    else (if lines[0].NormalLine? then [Vec4(lines[0].x, lines[0].y, lines[0].z, 1.0)] else [])
         + Normals(lines[1..])
  }

  /** The words of each `f` line, in file order. */
  function FaceWords(lines: seq<ObjLine>): seq<seq<string>>
  {
    if lines == [] then []
    else (if lines[0].FaceLine? then [Words(lines[0].text)] else []) + FaceWords(lines[1..])
  }

  /** The words of each `f` line as the `while (ss.good())` loop hands them on, in file order. */
  function LoopFaceWords(lines: seq<ObjLine>): seq<seq<string>>
  {
    if lines == [] then []
    else (if lines[0].FaceLine? then [LoopWords(lines[0].text)] else []) + LoopFaceWords(lines[1..])
  }

  /** When no `f` line ends in white space, the loop hands on exactly the words. */
  lemma {:induction false} LoopFaceWordsClean(lines: seq<ObjLine>)
    requires forall j :: 0 <= j < |lines| && lines[j].FaceLine? ==> !EndsInSpace(lines[j].text)
    ensures LoopFaceWords(lines) == FaceWords(lines)
  {
    if lines != [] {
      var rest := lines[1..];
      assert forall j :: 0 <= j < |rest| ==> rest[j] == lines[j + 1];
      LoopFaceWordsClean(rest);
      if lines[0].FaceLine? {
        var text := lines[0].text;
        assert !EndsInSpace(text);
        LoopWordsTrailing(text);
        assert LoopWords(text) == Words(text) + [];
        assert Words(text) + [] == Words(text);
        assert LoopFaceWords(lines) == [LoopWords(text)] + LoopFaceWords(rest);
        assert FaceWords(lines) == [Words(text)] + FaceWords(rest);
      } else {
        assert LoopFaceWords(lines) == [] + LoopFaceWords(rest);
        assert FaceWords(lines) == [] + FaceWords(rest);
      }
    }
  }

  /** The loop's word list for the `f` line at position j is one of the gathered lists. */
  lemma {:induction false} LoopFaceWordsAt(lines: seq<ObjLine>, j: nat)
    requires j < |lines| && lines[j].FaceLine?
    ensures exists k :: 0 <= k < |LoopFaceWords(lines)| && LoopFaceWords(lines)[k] == LoopWords(lines[j].text)
  {
    var head: seq<seq<string>> := if lines[0].FaceLine? then [LoopWords(lines[0].text)] else [];
    assert LoopFaceWords(lines) == head + LoopFaceWords(lines[1..]);
    if j == 0 {
      assert LoopFaceWords(lines)[0] == LoopWords(lines[j].text);
    } else {
      LoopFaceWordsAt(lines[1..], j - 1);
      var k :| 0 <= k < |LoopFaceWords(lines[1..])| && LoopFaceWords(lines[1..])[k] == LoopWords(lines[1..][j - 1].text);
      assert LoopFaceWords(lines)[|head| + k] == LoopWords(lines[j].text);
    }
  }

  /**
   * Gathering is line by line: the lists for a concatenation are the
   * concatenated lists, so each line contributes only its own entry.
   */
  lemma GatherConcat(a: seq<ObjLine>, b: seq<ObjLine>)
    ensures VertexPositions(a + b) == VertexPositions(a) + VertexPositions(b)
    ensures Normals(a + b) == Normals(a) + Normals(b)
    ensures FaceWords(a + b) == FaceWords(a) + FaceWords(b)
  {
    PositionsConcat(a, b);
    NormalsConcat(a, b);
    FaceWordsConcat(a, b);
  }

  lemma {:induction false} PositionsConcat(a: seq<ObjLine>, b: seq<ObjLine>)
    ensures VertexPositions(a + b) == VertexPositions(a) + VertexPositions(b)
  {
    if a == [] {
      assert a + b == b;
    } else {
      assert (a + b)[0] == a[0];
      assert (a + b)[1..] == a[1..] + b;
      PositionsConcat(a[1..], b);
    }
  }

  lemma {:induction false} NormalsConcat(a: seq<ObjLine>, b: seq<ObjLine>)
    ensures Normals(a + b) == Normals(a) + Normals(b)
  {
    if a == [] {
      assert a + b == b;
    } else {
      assert (a + b)[0] == a[0];
      assert (a + b)[1..] == a[1..] + b;
      NormalsConcat(a[1..], b);
    }
  }

  lemma {:induction false} FaceWordsConcat(a: seq<ObjLine>, b: seq<ObjLine>)
    ensures FaceWords(a + b) == FaceWords(a) + FaceWords(b)
  {
    if a == [] {
      assert a + b == b;
    } else {
      assert (a + b)[0] == a[0];
      assert (a + b)[1..] == a[1..] + b;
      FaceWordsConcat(a[1..], b);
    }
  }

  /** Each `v` line adds exactly one vertex position, the point it names, and nothing else. */
  lemma VertexLineAdds(a: seq<ObjLine>, x: real, y: real, z: real)
    ensures VertexPositions(a + [VertexLine(x, y, z)]) == VertexPositions(a) + [Vec4(x, y, z, 1.0)]
    ensures Normals(a + [VertexLine(x, y, z)]) == Normals(a)
    ensures FaceWords(a + [VertexLine(x, y, z)]) == FaceWords(a)
  {
    GatherConcat(a, [VertexLine(x, y, z)]);
  }

  /** A line with any other command adds nothing. */
  lemma OtherLineAddsNothing(a: seq<ObjLine>, b: seq<ObjLine>)
    ensures VertexPositions(a + [OtherLine] + b) == VertexPositions(a + b)
    ensures Normals(a + [OtherLine] + b) == Normals(a + b)
    ensures FaceWords(a + [OtherLine] + b) == FaceWords(a + b)
  {
    GatherConcat(a, [OtherLine]);
    GatherConcat(a + [OtherLine], b);
    GatherConcat(a, b);
  }
}
