/** Route paths and methods: `normalizePath` and the comparisons `overlaps` rests on. */
module Paths {

  /** `strings.Split(s, "/")`. */
  function Split(s: string): (segs: seq<string>)
    ensures |segs| >= 1
    ensures forall i :: 0 <= i < |segs| ==> '/' !in segs[i]
  {
    if s == "" then [""]
    else
      var later := Split(s[1..]);
      if s[0] == '/' then [""] + later else [[s[0]] + later[0]] + later[1..]
  }

  /** `strings.Join(segs, "/")`. */
  function Join(segs: seq<string>): string
    requires |segs| >= 1
  {
    if |segs| == 1 then segs[0] else segs[0] + "/" + Join(segs[1..])
  }

  /** A `{param}` segment. */
  predicate IsParam(seg: string) {
    |seg| >= 2 && seg[0] == '{' && seg[|seg| - 1] == '}'
  }

  function NormalSegment(seg: string): string {
    if IsParam(seg) then "{}" else seg
  }

  function NormalSegments(segs: seq<string>): (r: seq<string>)
    ensures |r| == |segs|
  {
    seq(|segs|, i requires 0 <= i < |segs| => NormalSegment(segs[i]))
  }

  function NormalPath(path: string): string {
    Join(NormalSegments(Split(path)))
  }

  /** `normalizePath`: overwrites the parameter segments of the split path and joins it again. */
  method NormalizePath(path: string) returns (normal: string)
    ensures normal == NormalPath(path)
  {
    var parts := Split(path);
    var segs := new string[|parts|](i requires 0 <= i < |parts| => parts[i]);
    for i := 0 to segs.Length
      invariant forall j :: 0 <= j < i ==> segs[j] == NormalSegment(parts[j])
      invariant forall j :: i <= j < segs.Length ==> segs[j] == parts[j]
    {
      var s := segs[i];
      if |s| >= 2 && s[0] == '{' && s[|s| - 1] == '}' {
        segs[i] := "{}";
      }
    }
    assert segs[..] == NormalSegments(parts);
    normal := Join(segs[..]);
  }

  // ---- split and join undo each other ------------------------------------------

  lemma {:induction false} JoinAfterSplit(s: string)
    ensures Join(Split(s)) == s
  {
    if s != "" {
      JoinAfterSplit(s[1..]);
      var later, segs := Split(s[1..]), Split(s);
      if s[0] == '/' {
        assert segs[1..] == later;
      } else if |later| > 1 {
        assert segs[1..] == later[1..];
        assert s == [s[0]] + (later[0] + "/" + Join(later[1..]));
      }
    }
  }

  lemma {:induction false} SplitAfterJoin(segs: seq<string>)
    requires |segs| >= 1
    requires forall i :: 0 <= i < |segs| ==> '/' !in segs[i]
    ensures Split(Join(segs)) == segs
    decreases |segs|, |segs[0]|
  {
    var head, s := segs[0], Join(segs);
    if head != "" {
      var shorter := [head[1..]] + segs[1..];
      assert shorter[1..] == segs[1..];
      assert s[1..] == Join(shorter) && s[0] == head[0];
      assert forall i :: 0 <= i < |shorter| ==> '/' !in shorter[i];
      SplitAfterJoin(shorter);
      assert [head[0]] + head[1..] == head;
    } else if |segs| > 1 {
      assert s[1..] == Join(segs[1..]) && s[0] == '/';
      SplitAfterJoin(segs[1..]);
    }
  }

  // ---- what normalisation identifies --------------------------------------------

  /** Normalising a path normalises its segments, one for one. */
  lemma NormalPathSegments(path: string)
    ensures Split(NormalPath(path)) == NormalSegments(Split(path))
    ensures |Split(NormalPath(path))| == |Split(path)|
  {
    SplitAfterJoin(NormalSegments(Split(path)));
  }

  lemma NormalPathIdempotent(path: string)
    ensures NormalPath(NormalPath(path)) == NormalPath(path)
  {
    NormalPathSegments(path);
    var segs := Split(path);
    assert NormalSegments(NormalSegments(segs)) == NormalSegments(segs);
  }

  /** A segment that is one path parameter, whatever its name. */
  ghost predicate Braced(seg: string) {
    exists name: string :: seg == "{" + name + "}"
  }

  lemma BracedIff(seg: string)
    ensures Braced(seg) <==> IsParam(seg)
  {
    if IsParam(seg) {
      assert seg == "{" + seg[1..|seg| - 1] + "}";
    }
  }

  /** The normal form of a segment: "{}" for a parameter, and anything else itself. */
  lemma NormalSegmentIs(seg: string)
    ensures NormalSegment(seg) == if Braced(seg) then "{}" else seg
  {
    hide IsParam, Braced;
    BracedIff(seg);
  }

  /** The same for every segment of a path. */
  lemma NormalPathIs(path: string)
    ensures |Split(NormalPath(path))| == |Split(path)|
    ensures forall i :: 0 <= i < |Split(path)| ==>
              Split(NormalPath(path))[i] == if Braced(Split(path)[i]) then "{}" else Split(path)[i]
  {
    hide Split, Join, NormalSegment, Braced;
    NormalPathSegments(path);
    forall i | 0 <= i < |Split(path)|
      ensures NormalSegments(Split(path))[i] == if Braced(Split(path)[i]) then "{}" else Split(path)[i]
    {
      NormalSegmentIs(Split(path)[i]);
    }
  }

  /** Two paths normalise alike exactly when their segments agree pairwise, up to both being
      parameters. */
  lemma NormalPathIff(a: string, b: string)
    ensures NormalPath(a) == NormalPath(b)
       <==> |Split(a)| == |Split(b)|
            && forall i :: 0 <= i < |Split(a)| ==>
                 Split(a)[i] == Split(b)[i] || (Braced(Split(a)[i]) && Braced(Split(b)[i]))
  {
    hide Split, Join, NormalSegments, NormalSegment, Braced;
    NormalPathSegments(a);
    NormalPathSegments(b);
    NormalSegmentsIff(Split(a), Split(b));
  }

  lemma NormalSegmentsIff(x: seq<string>, y: seq<string>)
    ensures NormalSegments(x) == NormalSegments(y)
       <==> |x| == |y| && forall i :: 0 <= i < |x| ==> x[i] == y[i] || (Braced(x[i]) && Braced(y[i]))
  {
    hide NormalSegment, Braced;
    if |x| == |y| {
      forall i | 0 <= i < |x|
        ensures NormalSegments(x)[i] == NormalSegments(y)[i] <==> x[i] == y[i] || (Braced(x[i]) && Braced(y[i]))
      {
        NormalSegmentIff(x[i], y[i]);
      }
    }
  }

  lemma NormalSegmentIff(a: string, b: string)
    ensures NormalSegment(a) == NormalSegment(b) <==> a == b || (Braced(a) && Braced(b))
  {
    hide Braced;
    BracedIff(a);
    BracedIff(b);
  }

  lemma {:induction false} JoinConcat(x: seq<string>, y: seq<string>)
    requires |x| >= 1 && |y| >= 1
    ensures Join(x + y) == Join(x) + ("/" + Join(y))
  {
    if |x| == 1 {
      assert (x + y)[1..] == y;
    } else {
      JoinConcat(x[1..], y);
      assert (x + y)[1..] == x[1..] + y;
      assert x[0] + "/" + (Join(x[1..]) + ("/" + Join(y))) == x[0] + "/" + Join(x[1..]) + ("/" + Join(y));
    }
  }

  /** Splitting what is joined of two paths. */
  lemma SplitAtSlash(a: string, b: string)
    ensures Split(a + ("/" + b)) == Split(a) + Split(b)
  {
    hide Split, Join;
    JoinAfterSplit(a);
    JoinAfterSplit(b);
    JoinConcat(Split(a), Split(b));
    SplitAfterJoin(Split(a) + Split(b));
  }

  lemma SplitWhole(seg: string)
    requires '/' !in seg
    ensures Split(seg) == [seg]
  {
    hide Split;
    SplitAfterJoin([seg]);
  }

  /** The segments of a path with one parameter picked out. */
  lemma SplitAround(before: string, name: string, after: string)
    requires '/' !in name && (after == "" || after[0] == '/')
    ensures Split(before + ("/" + ("{" + name + "}" + after)))
         == Split(before) + (["{" + name + "}"] + if after == "" then [] else Split(after[1..]))
  {
    hide Split;
    var seg := "{" + name + "}";
    SplitWhole(seg);
    SplitAtSlash(before, seg + after);
    if after == "" {
      assert seg + after == seg && [seg] + [] == [seg];
    } else {
      assert after == "/" + after[1..];
      SplitAtSlash(seg, after[1..]);
    }
  }

  /** Renaming a path parameter changes nothing. */
  lemma RenamedParameter(before: string, name: string, other: string, after: string)
    requires '/' !in name && '/' !in other && (after == "" || after[0] == '/')
    ensures NormalPath(before + ("/" + ("{" + name + "}" + after)))
         == NormalPath(before + ("/" + ("{" + other + "}" + after)))
  {
    hide Split, NormalPath, Braced;
    SplitAround(before, name, after);
    SplitAround(before, other, after);
    BracedIs(name);
    BracedIs(other);
    NormalPathIff(before + ("/" + ("{" + name + "}" + after)), before + ("/" + ("{" + other + "}" + after)));
  }

  lemma BracedIs(name: string)
    ensures Braced("{" + name + "}")
  {
  }

  // ---- methods -------------------------------------------------------------------

  function LowerChar(c: char): char {
    if 'A' <= c <= 'Z' then c + (32 as char) else c
  }

  function UpperChar(c: char): char {
    if 'a' <= c <= 'z' then c - (32 as char) else c
  }

  function Fold(s: string): string {
    seq(|s|, i requires 0 <= i < |s| => LowerChar(s[i]))
  }

  function Upper(s: string): string {
    seq(|s|, i requires 0 <= i < |s| => UpperChar(s[i]))
  }

  /** `strings.EqualFold` on ASCII. */
  predicate EqualFold(a: string, b: string) {
    Fold(a) == Fold(b)
  }

  /** The same letter, or the same other character. */
  predicate SameLetter(a: char, b: char) {
    || a == b
    || ('A' <= a <= 'Z' && b as int == a as int + 32)
    || ('A' <= b <= 'Z' && a as int == b as int + 32)
  }

  /** Folded comparison is comparison up to the case of letters. */
  lemma EqualFoldIff(a: string, b: string)
    ensures EqualFold(a, b) <==> |a| == |b| && forall i :: 0 <= i < |a| ==> SameLetter(a[i], b[i])
  {
    if EqualFold(a, b) {
      assert |Fold(a)| == |a| && |Fold(b)| == |b|;
      forall i | 0 <= i < |a| ensures SameLetter(a[i], b[i]) {
        assert Fold(a)[i] == Fold(b)[i];
      }
    }
  }

  /** Upper-casing keeps every character up to the case of letters and leaves no small one. */
  lemma UpperIs(s: string)
    ensures |Upper(s)| == |s|
    ensures forall i :: 0 <= i < |s| ==> SameLetter(Upper(s)[i], s[i]) && !('a' <= Upper(s)[i] <= 'z')
  {
  }

  /** On methods as `compile` leaves them, upper-cased, folding compares nothing but equality. */
  lemma EqualFoldUpper(a: string, b: string)
    ensures EqualFold(Upper(a), Upper(b)) <==> Upper(a) == Upper(b)
  {
    if EqualFold(Upper(a), Upper(b)) {
      assert |Fold(Upper(a))| == |a| && |Fold(Upper(b))| == |b|;
      forall i | 0 <= i < |a| ensures Upper(a)[i] == Upper(b)[i] {
        assert Fold(Upper(a))[i] == LowerChar(UpperChar(a[i])) && Fold(Upper(b))[i] == LowerChar(UpperChar(b[i]));
      }
    }
  }
}
