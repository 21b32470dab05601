/**
 Ruby's `String#split` with a literal separator string and no limit, as the
 filter applies it to the contents of its reference file. The string is cut at
 every occurrence of the separator, found left to right without overlap;
 leading and interior empty pieces are kept, trailing empty pieces are dropped,
 so the empty string splits into no pieces at all.
 */
module RubySplit {

  /** The separators modelled here: Ruby gives `""` (split into characters)
      and `" "` (split on runs of whitespace) meanings of their own. */
  predicate LiteralSeparator(sep: string) {
    |sep| > 0 && sep != " "
  }

  /** `sep` occurs somewhere inside `t`. */
  ghost predicate ContainsSep(t: string, sep: string) {
    exists i :: 0 <= i <= |t| && sep <= t[i..]
  }

  /** No occurrence of `sep` starts inside `p` when `p` is followed by `sep`:
      the condition under which `p` comes back unchanged as a piece. */
  ghost predicate Separable(p: string, sep: string) {
    forall j :: 0 <= j < |p| ==> !(sep <= (p + sep)[j..])
  }

  /** Every piece between the matches of `sep`, trailing empty ones included
      (what Ruby returns for a negative limit). */
  function Pieces(s: string, sep: string): (r: seq<string>)
    requires |sep| > 0
    ensures |r| > 0 && r[0] <= s
    decreases |s|
  {
    if sep <= s then [""] + Pieces(s[|sep|..], sep)
    else if s == [] then [""]
    else
      var rest := Pieces(s[1..], sep);
      [[s[0]] + rest[0]] + rest[1..]
  }

  /** Removes the empty pieces at the end of `ps`. */
  function DropTrailingEmpty(ps: seq<string>): (r: seq<string>)
    ensures r <= ps
    ensures r == [] || r[|r| - 1] != ""
    ensures forall i :: |r| <= i < |ps| ==> ps[i] == ""
  {
    if ps == [] then []
    else if ps[|ps| - 1] == "" then DropTrailingEmpty(ps[..|ps| - 1])
    else ps
  }

  /** `s.split(sep)` in Ruby. */
  function Split(s: string, sep: string): (r: seq<string>)
    requires LiteralSeparator(sep)
    ensures r == [] || r[|r| - 1] != ""
  {
    DropTrailingEmpty(Pieces(s, sep))
  }

  /** `ps.join(sep)` in Ruby. */
  function Join(ps: seq<string>, sep: string): string {
    if |ps| == 0 then ""
    else if |ps| == 1 then ps[0]
    else ps[0] + sep + Join(ps[1..], sep)
  }

  /** `sep * k` in Ruby. */
  function Repeat(sep: string, k: nat): string {
    if k == 0 then "" else Repeat(sep, k - 1) + sep
  }

  /** No piece contains the separator: each ends at the first match after it starts. */
  lemma {:induction false} PiecesAvoidSeparator(s: string, sep: string)
    requires |sep| > 0
    ensures forall i :: 0 <= i < |Pieces(s, sep)| ==> !ContainsSep(Pieces(s, sep)[i], sep)
    decreases |s|
  {
    var r := Pieces(s, sep);
    if sep <= s {
      var tail := Pieces(s[|sep|..], sep);
      PiecesAvoidSeparator(s[|sep|..], sep);
      forall i | 0 <= i < |r| ensures !ContainsSep(r[i], sep) {
        if i > 0 {
          assert r[i] == tail[i - 1];
        }
      }
    } else if s == [] {
    } else {
      var rest := Pieces(s[1..], sep);
      PiecesAvoidSeparator(s[1..], sep);
      var head := [s[0]] + rest[0];
      assert head <= s;
      forall j | 0 <= j <= |head| ensures !(sep <= head[j..]) {
        if j > 0 {
          assert head[j..] == rest[0][j - 1..];
        }
      }
      forall i | 0 <= i < |r| ensures !ContainsSep(r[i], sep) {
        if i > 0 {
          assert r[i] == rest[i];
        }
      }
    }
  }

  /** No piece of `s.split(sep)` contains the separator. */
  lemma SplitAvoidsSeparator(s: string, sep: string)
    requires LiteralSeparator(sep)
    ensures forall i :: 0 <= i < |Split(s, sep)| ==> !ContainsSep(Split(s, sep)[i], sep)
  {
    PiecesAvoidSeparator(s, sep);
  }

  lemma JoinConsChar(c: char, ps: seq<string>, sep: string)
    requires |ps| > 0
    ensures Join([[c] + ps[0]] + ps[1..], sep) == [c] + Join(ps, sep)
  {
  }

  /** Joining all the pieces, trailing empty ones included, gives back the string. */
  lemma {:induction false} JoinPieces(s: string, sep: string)
    requires |sep| > 0
    ensures Join(Pieces(s, sep), sep) == s
    decreases |s|
  {
    if sep <= s {
      var tail := Pieces(s[|sep|..], sep);
      JoinPieces(s[|sep|..], sep);
      assert ([""] + tail)[1..] == tail;
      assert s == sep + s[|sep|..];
    } else if s == [] {
    } else {
      JoinPieces(s[1..], sep);
      JoinConsChar(s[0], Pieces(s[1..], sep), sep);
      assert s == [s[0]] + s[1..];
    }
  }

  lemma {:induction false} JoinSnoc(ps: seq<string>, p: string, sep: string)
    requires |ps| > 0
    ensures Join(ps + [p], sep) == Join(ps, sep) + sep + p
    decreases |ps|
  {
    if |ps| > 1 {
      assert (ps + [p])[1..] == ps[1..] + [p];
      JoinSnoc(ps[1..], p, sep);
    }
  }

  /** Dropping `k` trailing empty pieces removes exactly `k` separators from the end of the join. */
  lemma {:induction false} JoinDropTrailing(ps: seq<string>, sep: string) returns (k: nat)
    requires |ps| > 0
    ensures Join(ps, sep) == Join(DropTrailingEmpty(ps), sep) + Repeat(sep, k)
    decreases |ps|
  {
    var n := |ps|;
    if ps[n - 1] != "" || n == 1 {
      k := 0;
    } else {
      var init := ps[..n - 1];
      var k' := JoinDropTrailing(init, sep);
      assert init + [ps[n - 1]] == ps;
      JoinSnoc(init, "", sep);
      k := k' + 1;
    }
  }

  /** Joining the pieces of `s.split(sep)` gives `s` less the separators that ended it. */
  lemma SplitJoin(s: string, sep: string) returns (k: nat)
    requires LiteralSeparator(sep)
    ensures s == Join(Split(s, sep), sep) + Repeat(sep, k)
  {
    JoinPieces(s, sep);
    k := JoinDropTrailing(Pieces(s, sep), sep);
  }

  lemma {:induction false} RepeatCons(sep: string, k: nat)
    ensures Repeat(sep, k + 1) == sep + Repeat(sep, k)
  {
    if k > 0 {
      RepeatCons(sep, k - 1);
    }
  }

  lemma {:induction false} PiecesOfRepeat(sep: string, k: nat)
    requires |sep| > 0
    ensures forall i :: 0 <= i < |Pieces(Repeat(sep, k), sep)| ==> Pieces(Repeat(sep, k), sep)[i] == ""
  {
    if k > 0 {
      var s := Repeat(sep, k);
      RepeatCons(sep, k - 1);
      assert s[|sep|..] == Repeat(sep, k - 1);
      PiecesOfRepeat(sep, k - 1);
    }
  }

  /** The split is empty exactly when the string is nothing but separators. */
  lemma SplitEmpty(s: string, sep: string)
    requires LiteralSeparator(sep)
    ensures Split(s, sep) == [] <==> exists k :: s == Repeat(sep, k)
  {
    var k := SplitJoin(s, sep);
    if exists k' :: s == Repeat(sep, k') {
      var k' :| s == Repeat(sep, k');
      PiecesOfRepeat(sep, k');
    }
  }

  lemma {:induction false} SeparableTail(c: char, p: string, sep: string)
    requires Separable([c] + p, sep)
    ensures Separable(p, sep)
  {
    forall j | 0 <= j < |p| ensures !(sep <= (p + sep)[j..]) {
      assert (p + sep)[j..] == ([c] + p + sep)[j + 1..];
    }
  }

  /** A separable piece followed by the separator comes back as the first piece. */
  lemma {:induction false} PiecesOfSeparated(p: string, rest: string, sep: string)
    requires |sep| > 0 && Separable(p, sep)
    ensures Pieces(p + sep + rest, sep) == [p] + Pieces(rest, sep)
    decreases |p|
  {
    var s := p + sep + rest;
    if p == [] {
      assert s == sep + rest;
      assert s[|sep|..] == rest;
    } else {
      assert (p + sep)[0..] == p + sep;
      assert !(sep <= s);
      assert p == [p[0]] + p[1..];
      SeparableTail(p[0], p[1..], sep);
      assert s[1..] == p[1..] + sep + rest;
      PiecesOfSeparated(p[1..], rest, sep);
    }
  }

  /** A separable string is a single piece. */
  lemma {:induction false} PiecesOfSeparable(p: string, sep: string)
    requires |sep| > 0 && Separable(p, sep)
    ensures Pieces(p, sep) == [p]
    decreases |p|
  {
    if p != [] {
      assert (p + sep)[0..] == p + sep;
      assert !(sep <= p);
      assert p == [p[0]] + p[1..];
      SeparableTail(p[0], p[1..], sep);
      PiecesOfSeparable(p[1..], sep);
    }
  }

  lemma {:induction false} PiecesOfJoin(ps: seq<string>, sep: string)
    requires |sep| > 0 && |ps| > 0
    requires forall i :: 0 <= i < |ps| ==> Separable(ps[i], sep)
    ensures Pieces(Join(ps, sep), sep) == ps
    decreases |ps|
  {
    if |ps| == 1 {
      PiecesOfSeparable(ps[0], sep);
    } else {
      PiecesOfJoin(ps[1..], sep);
      PiecesOfSeparated(ps[0], Join(ps[1..], sep), sep);
      assert ps == [ps[0]] + ps[1..];
    }
  }

  /** Round trip: pieces that are separable and do not end in an empty piece
      are what splitting their join gives back. */
  lemma SplitOfJoin(ps: seq<string>, sep: string)
    requires LiteralSeparator(sep)
    requires forall i :: 0 <= i < |ps| ==> Separable(ps[i], sep)
    requires ps == [] || ps[|ps| - 1] != ""
    ensures Split(Join(ps, sep), sep) == ps
  {
    if ps != [] {
      PiecesOfJoin(ps, sep);
    }
  }

  /** With a one-character separator, a piece is separable exactly when it
      does not hold that character. */
  lemma SeparableSingleChar(p: string, sep: string)
    requires |sep| == 1
    ensures Separable(p, sep) <==> sep[0] !in p
  {
    if sep[0] in p {
      var j :| 0 <= j < |p| && p[j] == sep[0];
      assert (p + sep)[j..][..1] == sep;
    } else {
      forall j | 0 <= j < |p| ensures !(sep <= (p + sep)[j..]) {
        assert (p + sep)[j..][0] == p[j];
      }
    }
  }
}
