/** Preparing a text for Playfair: the letters are pulled out (with 'j'
    folded into 'i'), then cut into two-letter digraphs. A letter followed
    by the same character, or left alone at the end, is paired with a
    filler 'X' or 'x' in its own case, and the position of each filler in
    the joined digraphs is recorded. */
module PlayfairDigraphs {
  import opened Text

  /** `checkUpperCase(c) ? "X" : "x"`. */
  function Filler(c: char): (f: char)
    ensures f == 'X' || f == 'x'
    ensures IsLetter(c) ==> (IsUpper(f) <==> IsUpper(c))
  {
    if CheckUpperCase(c) then 'X' else 'x'
  }

  /** The pair `getPlayfairDigraphs` returns: the digraphs, and the
      positions the fillers take in their concatenation. */
  datatype Digraphs = Digraphs(digraphs: seq<String>, fillers: seq<int>)

  function Shift(ps: seq<int>, k: int): (r: seq<int>)
    ensures |r| == |ps|
    ensures forall j :: 0 <= j < |ps| ==> r[j] == ps[j] + k
  {
    seq(|ps|, j requires 0 <= j < |ps| => ps[j] + k)
  }

  lemma ShiftMember(ps: seq<int>, k: int, p: int)
    ensures p in Shift(ps, k) <==> p - k in ps
  {
    var r := Shift(ps, k);
    if p in r {
      var j :| 0 <= j < |r| && r[j] == p;
      assert ps[j] == p - k;
    }
    if p - k in ps {
      var j :| 0 <= j < |ps| && ps[j] == p - k;
      assert r[j] == p;
    }
  }

  /** The digraphs of `m`, read from the front. A character equal to the
      next one gets a filler and the next one starts the following digraph;
      two different characters form a digraph; a last character alone gets
      a filler. Every digraph has two characters; its two characters are
      equal only when the second is the filler of the first; each filler
      position is odd, names the second character of a digraph that holds
      a filler, and the positions increase; the digraphs hold the
      characters of `m` plus one character per filler. */
  function Pairing(m: String): (r: Digraphs)
    ensures forall t :: 0 <= t < |r.digraphs| ==> |r.digraphs[t]| == 2
    ensures forall t :: 0 <= t < |r.digraphs| && r.digraphs[t][0] == r.digraphs[t][1] ==>
      r.digraphs[t][1] == Filler(r.digraphs[t][0])
    ensures forall j :: 0 <= j < |r.fillers| ==> 1 <= r.fillers[j] < 2 * |r.digraphs|
    ensures 2 * |r.digraphs| == |m| + |r.fillers|
    decreases |m|
  {
    if m == [] then Digraphs([], [])
    else if |m| >= 2 && m[0] == m[1] then
      var rest := Pairing(m[1..]);
      Digraphs([[m[0], Filler(m[0])]] + rest.digraphs, [1] + Shift(rest.fillers, 2))
    else if |m| >= 2 then
      var rest := Pairing(m[2..]);
      Digraphs([m[..2]] + rest.digraphs, Shift(rest.fillers, 2))
    else
      Digraphs([[m[0], Filler(m[0])]], [1])
  }

  /** Each position in `fs` is odd and points at the second character of a
      digraph of `ds` whose second character is the filler of its first. */
  predicate MarksFillers(ds: seq<String>, fs: seq<int>)
  {
    forall j :: 0 <= j < |fs| ==>
      && 0 <= fs[j] < 2 * |ds| && fs[j] % 2 == 1
      && |ds[fs[j] / 2]| == 2 && ds[fs[j] / 2][1] == Filler(ds[fs[j] / 2][0])
  }

  predicate Increasing(fs: seq<int>)
  {
    forall a, b :: 0 <= a < b < |fs| ==> fs[a] < fs[b]
  }

  /** Putting a digraph in front, with a filler at position 1 or none, keeps
      the marks right once the later ones move on by two. */
  lemma MarksStep(d: String, ds: seq<String>, extra: seq<int>, fs: seq<int>)
    requires MarksFillers(ds, fs) && Increasing(fs)
    requires extra == [] || (extra == [1] && |d| == 2 && d[1] == Filler(d[0]))
    ensures MarksFillers([d] + ds, extra + Shift(fs, 2))
    ensures Increasing(extra + Shift(fs, 2))
  {
    var all := [d] + ds;
    var moved := extra + Shift(fs, 2);
    forall j | |extra| <= j < |moved|
      ensures moved[j] / 2 == fs[j - |extra|] / 2 + 1
      ensures moved[j] % 2 == fs[j - |extra|] % 2
      ensures all[moved[j] / 2] == ds[fs[j - |extra|] / 2]
    {
    }
  }

  /** Each recorded filler position is odd and points at the second
      character of a digraph whose second character is the filler of its
      first; the positions increase. */
  lemma {:induction false} FillerPositions(m: String)
    ensures MarksFillers(Pairing(m).digraphs, Pairing(m).fillers)
    ensures Increasing(Pairing(m).fillers)
    decreases |m|
  {
    if |m| >= 2 && m[0] == m[1] {
      var rest := Pairing(m[1..]);
      FillerPositions(m[1..]);
      MarksStep([m[0], Filler(m[0])], rest.digraphs, [1], rest.fillers);
    } else if |m| >= 2 {
      var rest := Pairing(m[2..]);
      FillerPositions(m[2..]);
      MarksStep(m[..2], rest.digraphs, [], rest.fillers);
      assert [] + Shift(rest.fillers, 2) == Shift(rest.fillers, 2);
    } else if |m| == 1 {
      MarksStep([m[0], Filler(m[0])], [], [1], []);
      assert [[m[0], Filler(m[0])]] + [] == [[m[0], Filler(m[0])]];
      assert [1] + Shift([], 2) == [1];
    }
  }

  /** The filler at a recorded position of the joined digraphs follows the
      case of the character just before it. */
  lemma FillerInText(m: String, j: int)
    requires 0 <= j < |Pairing(m).fillers|
    ensures var r := Pairing(m); var p := r.fillers[j];
      1 <= p < |Concat(r.digraphs)| && Concat(r.digraphs)[p] == Filler(Concat(r.digraphs)[p - 1])
  {
    var r := Pairing(m);
    var p := r.fillers[j];
    FillerPositions(m);
    ConcatLength(r.digraphs, 2);
    var t := p / 2;
    assert p == t * 2 + 1 && p - 1 == t * 2 + 0;
    ConcatUniformAt(r.digraphs, 2, t, 0);
    ConcatUniformAt(r.digraphs, 2, t, 1);
  }

  /** What is left of `s` once the characters at the positions in `ps` are
      deleted; `base` is the position of `s[0]`. */
  function Without(s: String, ps: seq<int>, base: int): String
  {
    if s == [] then [] else (if base in ps then [] else [s[0]]) + Without(s[1..], ps, base + 1)
  }

  lemma {:induction false} WithoutAppend(x: String, y: String, ps: seq<int>, base: int)
    ensures Without(x + y, ps, base) == Without(x, ps, base) + Without(y, ps, base + |x|)
  {
    if x != [] {
      assert (x + y)[1..] == x[1..] + y;
      WithoutAppend(x[1..], y, ps, base + 1);
    } else {
      assert x + y == y;
    }
  }

  /** Only which positions are deleted matters, not how they are listed. */
  lemma {:induction false} WithoutSame(s: String, ps: seq<int>, b: int, qs: seq<int>, c: int)
    requires forall p :: b <= p < b + |s| ==> (p in ps <==> p - b + c in qs)
    ensures Without(s, ps, b) == Without(s, qs, c)
  {
    if s != [] {
      WithoutSame(s[1..], ps, b + 1, qs, c + 1);
    }
  }

  /** Positions below 2, and a list moved on by two, delete from a text
      starting at position 2 what the unmoved list deletes from position 0. */
  lemma WithoutShifted(s: String, extra: seq<int>, ps: seq<int>)
    requires forall j :: 0 <= j < |extra| ==> extra[j] < 2
    ensures Without(s, extra + Shift(ps, 2), 2) == Without(s, ps, 0)
  {
    forall p | 2 <= p < 2 + |s|
      ensures p in extra + Shift(ps, 2) <==> p - 2 + 0 in ps
    {
      ShiftMember(ps, 2, p);
    }
    WithoutSame(s, extra + Shift(ps, 2), 2, ps, 0);
  }

  lemma WithoutFront(d: String, tail: String, ps: seq<int>)
    requires |d| == 2
    ensures Without(d + tail, ps, 0) == Without(d, ps, 0) + Without(tail, ps, 2)
  {
    WithoutAppend(d, tail, ps, 0);
  }

  lemma WithoutPair(a: char, b: char, ps: seq<int>, base: int)
    ensures Without([a, b], ps, base) ==
      (if base in ps then [] else [a]) + (if base + 1 in ps then [] else [b])
  {
    assert [a, b][1..] == [b] && [b][1..] == [];
    assert Without([b], ps, base + 1) == (if base + 1 in ps then [] else [b]) + Without([], ps, base + 2);
  }

  /** Positions moved on by two never reach the first two characters. */
  lemma WithoutHead(d: String, extra: seq<int>, ps: seq<int>)
    requires |d| == 2
    requires forall j :: 0 <= j < |ps| ==> ps[j] >= 0
    ensures Without(d, extra + Shift(ps, 2), 0) == Without(d, extra, 0)
  {
    assert [d[0], d[1]] == d;
    WithoutPair(d[0], d[1], extra + Shift(ps, 2), 0);
    WithoutPair(d[0], d[1], extra, 0);
    ShiftMember(ps, 2, 0);
    ShiftMember(ps, 2, 1);
  }

  lemma ConcatCons(d: String, ds: seq<String>)
    ensures Concat([d] + ds) == d + Concat(ds)
  {
    ConcatAppend([d], ds);
    assert Concat([d]) == Concat([]) + d;
  }

  /** One step of the round trip, for a first digraph `d` whose fillers
      are the positions in `extra` (below 2), followed by digraphs `ds`
      whose fillers `ps` are moved on by two. */
  lemma RestoreStep(d: String, ds: seq<String>, extra: seq<int>, ps: seq<int>, head: String, text: String)
    requires |d| == 2
    requires forall j :: 0 <= j < |extra| ==> extra[j] < 2
    requires forall j :: 0 <= j < |ps| ==> ps[j] >= 0
    requires Without(d, extra, 0) == head
    requires Without(Concat(ds), ps, 0) == text
    ensures Without(Concat([d] + ds), extra + Shift(ps, 2), 0) == head + text
  {
    var fs := extra + Shift(ps, 2);
    var tail := Concat(ds);
    assert Concat([d] + ds) == d + tail by {
      ConcatCons(d, ds);
    }
    assert Without(d + tail, fs, 0) == Without(d, fs, 0) + Without(tail, fs, 2) by {
      WithoutFront(d, tail, fs);
    }
    assert Without(d, fs, 0) == head by {
      WithoutHead(d, extra, ps);
    }
    assert Without(tail, fs, 2) == text by {
      WithoutShifted(tail, extra, ps);
    }
  }

  /** `Restores(m)`: deleting the recorded fillers from the joined digraphs
      of `m` gives back `m`. */
  predicate Restores(m: String)
  {
    Without(Concat(Pairing(m).digraphs), Pairing(m).fillers, 0) == m
  }

  /** A repeated first character: the filler inserted after it is deleted
      again, and the rest restores by assumption. */
  lemma RestoreRepeated(m: String)
    requires |m| >= 2 && m[0] == m[1]
    requires Restores(m[1..])
    ensures Restores(m)
  {
    var rest := Pairing(m[1..]);
    var d := [m[0], Filler(m[0])];
    assert Without(d, [1], 0) == [m[0]] by { WithoutPair(m[0], Filler(m[0]), [1], 0); }
    RestoreStep(d, rest.digraphs, [1], rest.fillers, [m[0]], m[1..]);
    assert Pairing(m) == Digraphs([d] + rest.digraphs, [1] + Shift(rest.fillers, 2));
    assert m == [m[0]] + m[1..];
  }

  /** Two different first characters: they form a digraph with no filler. */
  lemma RestoreDistinct(m: String)
    requires |m| >= 2 && m[0] != m[1]
    requires Restores(m[2..])
    ensures Restores(m)
  {
    var rest := Pairing(m[2..]);
    var d := [m[0], m[1]];
    assert Without(d, [], 0) == d by { WithoutPair(m[0], m[1], [], 0); }
    RestoreStep(d, rest.digraphs, [], rest.fillers, d, m[2..]);
    assert Pairing(m) == Digraphs([d] + rest.digraphs, [] + Shift(rest.fillers, 2)) by {
      assert m[..2] == d;
      assert [] + Shift(rest.fillers, 2) == Shift(rest.fillers, 2);
    }
    assert m == d + m[2..];
  }

  /** A single last character: its filler is deleted again. */
  lemma RestoreLast(m: String)
    requires |m| == 1
    ensures Restores(m)
  {
    var d := [m[0], Filler(m[0])];
    assert Without(d, [1], 0) == [m[0]] by { WithoutPair(m[0], Filler(m[0]), [1], 0); }
    RestoreStep(d, [], [1], [], [m[0]], []);
    assert [m[0]] == m;
    assert [1] + Shift([], 2) == [1];
  }

  /** Deleting the recorded fillers from the joined digraphs gives back the
      text that was cut up. */
  lemma {:induction false} PairingRestores(m: String)
    ensures Without(Concat(Pairing(m).digraphs), Pairing(m).fillers, 0) == m
    decreases |m|
  {
    if m == [] {
    } else if |m| >= 2 && m[0] == m[1] {
      PairingRestores(m[1..]);
      RestoreRepeated(m);
    } else if |m| >= 2 {
      PairingRestores(m[2..]);
      RestoreDistinct(m);
    } else {
      RestoreLast(m);
    }
  }

  /** A text already made of two-character blocks whose characters differ
      is cut back into exactly those blocks, with no filler. */
  lemma {:induction false} PairingOfBlocks(blocks: seq<String>)
    requires forall t :: 0 <= t < |blocks| ==> |blocks[t]| == 2 && blocks[t][0] != blocks[t][1]
    ensures Pairing(Concat(blocks)) == Digraphs(blocks, [])
  {
    if blocks != [] {
      var m := Concat(blocks);
      assert blocks == [blocks[0]] + blocks[1..];
      ConcatCons(blocks[0], blocks[1..]);
      PairingOfBlocks(blocks[1..]);
      assert m[..2] == blocks[0];
      assert m[2..] == Concat(blocks[1..]);
    }
  }

  /** The part of `m` from position `i` on, empty once `i` has run past the
      end. */
  function Rest(m: String, i: int): String
    requires 0 <= i
  {
    if i <= |m| then m[i..] else []
  }

  /** Moving a first digraph `d`, with its fillers `extra`, from what is
      left to what is done keeps the done part followed by what is left
      unchanged. */
  lemma StepDone(done: seq<String>, added: seq<int>, d: String, extra: seq<int>, next: Digraphs)
    ensures (done + [d]) + next.digraphs == done + ([d] + next.digraphs)
    ensures (added + Shift(extra, 2 * |done|)) + Shift(next.fillers, 2 * |done + [d]|) ==
      added + Shift(extra + Shift(next.fillers, 2), 2 * |done|)
  {
    var k := 2 * |done|;
    var lhs := Shift(extra, k) + Shift(next.fillers, k + 2);
    var rhs := Shift(extra + Shift(next.fillers, 2), k);
    assert |lhs| == |rhs|;
    forall j | 0 <= j < |lhs|
      ensures lhs[j] == rhs[j]
    {
      if j >= |extra| {
        assert lhs[j] == next.fillers[j - |extra|] + k + 2;
      }
    }
    assert lhs == rhs;
  }

  /** What is left from `i` when its first two characters repeat: the first
      character with its filler, then what is left from `i + 1`. */
  lemma RestRepeated(message: String, i: int)
    requires 0 <= i && i + 1 < |message| && message[i] == message[i + 1]
    ensures Pairing(Rest(message, i)) ==
      Digraphs([[message[i], Filler(message[i])]] + Pairing(Rest(message, i + 1)).digraphs,
               [1] + Shift(Pairing(Rest(message, i + 1)).fillers, 2))
  {
    assert message[i..][1..] == message[i + 1..];
  }

  /** What is left from `i` when its first two characters differ: those two,
      then what is left from `i + 2`. */
  lemma RestPair(message: String, i: int)
    requires 0 <= i && i + 1 < |message| && message[i] != message[i + 1]
    ensures Pairing(Rest(message, i)) ==
      Digraphs([message[i..i + 2]] + Pairing(Rest(message, i + 2)).digraphs,
               [] + Shift(Pairing(Rest(message, i + 2)).fillers, 2))
  {
    assert message[i..][2..] == message[i + 2..];
    assert message[i..][..2] == message[i..i + 2];
  }

  /** What is left from the last character: that character with its filler. */
  lemma RestLast(message: String, i: int)
    requires 0 <= i && i + 1 == |message|
    ensures Pairing(Rest(message, i)) ==
      Digraphs([[message[i], Filler(message[i])]] + Pairing(Rest(message, i + 2)).digraphs,
               [1] + Shift(Pairing(Rest(message, i + 2)).fillers, 2))
  {
    assert Rest(message, i + 2) == [];
  }

  /** `getPlayfairDigraphs`: a loop stepping by two, which steps back by
      one after inserting a filler so the repeated character starts the
      next digraph. */
  method GetPlayfairDigraphs(message: String) returns (digraphs: seq<String>, addedFillers: seq<int>)
    ensures Digraphs(digraphs, addedFillers) == Pairing(message)
  {
    digraphs := [];
    addedFillers := [];
    var addFillerCount := 0;
    var i := 0;
    ghost var full := Pairing(message);
    while i < |message|
      invariant 0 <= i <= |message| + 1
      invariant i <= |message| ==> 2 * |digraphs| == i + addFillerCount
      invariant digraphs + Pairing(Rest(message, i)).digraphs == full.digraphs
      invariant addedFillers + Shift(Pairing(Rest(message, i)).fillers, 2 * |digraphs|) == full.fillers
      decreases |message| + 1 - i
    {
      if i + 1 < |message| && message[i] == message[i + 1] {
        var d := [message[i], Filler(message[i])];
        ghost var next := Pairing(Rest(message, i + 1));
        assert (digraphs + [d]) + next.digraphs == full.digraphs &&
          (addedFillers + [i + 1 + addFillerCount]) + Shift(next.fillers, 2 * |digraphs + [d]|) == full.fillers
        by {
          RestRepeated(message, i);
          StepDone(digraphs, addedFillers, d, [1], next);
          assert Shift([1], 2 * |digraphs|) == [i + 1 + addFillerCount];
        }
        digraphs := digraphs + [d];
        addedFillers := addedFillers + [i + 1 + addFillerCount];
        addFillerCount := addFillerCount + 1;
        i := i - 1;
      } else if i + 1 < |message| {
        var d := message[i..i + 2];
        ghost var next := Pairing(Rest(message, i + 2));
        assert (digraphs + [d]) + next.digraphs == full.digraphs &&
          addedFillers + Shift(next.fillers, 2 * |digraphs + [d]|) == full.fillers
        by {
          RestPair(message, i);
          StepDone(digraphs, addedFillers, d, [], next);
          assert addedFillers + Shift([], 2 * |digraphs|) == addedFillers;
        }
        digraphs := digraphs + [d];
      } else {
        var d := [message[i], Filler(message[i])];
        ghost var next := Pairing(Rest(message, i + 2));
        assert (digraphs + [d]) + next.digraphs == full.digraphs &&
          (addedFillers + [i + 1 + addFillerCount]) + Shift(next.fillers, 2 * |digraphs + [d]|) == full.fillers
        by {
          RestLast(message, i);
          StepDone(digraphs, addedFillers, d, [1], next);
          assert Shift([1], 2 * |digraphs|) == [i + 1 + addFillerCount];
        }
        digraphs := digraphs + [d];
        addedFillers := addedFillers + [i + 1 + addFillerCount];
        addFillerCount := addFillerCount + 1;
      }
      i := i + 2;
    }
    assert Rest(message, i) == [];
  }

  /** 'j' and 'J' are read as 'i' and 'I'. */
  function FoldJ(c: char): (r: char)
    ensures IsLetter(c) ==> SquareLetter(r) && (IsUpper(r) <==> IsUpper(c))
    ensures SquareLetter(c) || !IsLetter(c) ==> r == c
    ensures IsLetter(c) && !SquareLetter(c) ==> LetterIndex(r) == LetterIndex(c) - 1
  {
    if c == 'j' || c == 'J' then (if CheckUpperCase(c) then 'I' else 'i') else c
  }

  /** A character the Playfair square can encode: a letter other than 'j'
      and 'J'. */
  predicate SquareLetter(c: char)
  {
    IsLetter(c) && c != 'j' && c != 'J'
  }

  /** The letters of `m` in order, each 'j' or 'J' folded into 'i' or 'I'. */
  function LettersOf(m: String): (r: String)
    ensures |r| <= |m|
    ensures forall k :: 0 <= k < |r| ==> SquareLetter(r[k])
  {
    if m == [] then []
    else LettersOf(m[..|m| - 1]) + (if IsLetter(m[|m| - 1]) then [FoldJ(m[|m| - 1])] else [])
  }

  /** One character gives itself when it is a letter, folded, and nothing
      otherwise. */
  lemma LettersOfChar(c: char)
    ensures LettersOf([c]) == if IsLetter(c) then [FoldJ(c)] else []
  {
    assert [c][..0] == [];
  }

  /** The letters of a joined text are the letters of each part in turn:
      `extractLetters` keeps the letters in their order. */
  lemma {:induction false} LettersOfAppend(a: String, b: String)
    ensures LettersOf(a + b) == LettersOf(a) + LettersOf(b)
  {
    if b == [] {
      assert a + b == a;
    } else {
      var front := b[..|b| - 1];
      assert (a + b)[..|a + b| - 1] == a + front;
      assert (a + b)[|a + b| - 1] == b[|b| - 1];
      LettersOfAppend(a, front);
    }
  }

  /** Non-letters are dropped and 'J' is read as 'I'. */
  lemma LettersExample()
    ensures LettersOf("Jo, hi!") == "Iohi"
  {
    var m := "Jo, hi!";
    assert m[..6] == "Jo, hi" && "Jo, hi"[..5] == "Jo, h" && "Jo, h"[..4] == "Jo, ";
    assert "Jo, "[..3] == "Jo," && "Jo,"[..2] == "Jo" && "Jo"[..1] == "J" && "J"[..0] == [];
    assert LettersOf("J") == "I";
    assert LettersOf("Jo") == "Io";
    assert LettersOf("Jo, ") == "Io";
    assert LettersOf("Jo, hi") == "Iohi";
  }

  /** One entry of the `nonLetters` list: where the character was, and what
      it was. */
  datatype NonLetter = NonLetter(index: int, ch: char)

  /** The non-letters of `m` with their positions: every entry is a
      non-letter at its recorded position, the positions increase, and every
      non-letter of `m` is listed. */
  function NonLettersOf(m: String): (r: seq<NonLetter>)
    ensures forall k :: 0 <= k < |r| ==> 0 <= r[k].index < |m| && m[r[k].index] == r[k].ch && !IsLetter(r[k].ch)
    ensures forall a, b :: 0 <= a < b < |r| ==> r[a].index < r[b].index
    ensures forall i :: 0 <= i < |m| && !IsLetter(m[i]) ==> NonLetter(i, m[i]) in r
  {
    if m == [] then []
    else
      var front := m[..|m| - 1];
      var r0 := NonLettersOf(front);
      var last := |m| - 1;
      assert forall i :: 0 <= i < last ==> m[i] == front[i];
      if IsLetter(m[last]) then r0 else r0 + [NonLetter(last, m[last])]
  }

  /** Every character of `m` is a letter or a non-letter, never both. */
  lemma {:induction false} ExtractSplits(m: String)
    ensures |LettersOf(m)| + |NonLettersOf(m)| == |m|
  {
    if m != [] {
      ExtractSplits(m[..|m| - 1]);
    }
  }

  /** A text of square letters is its own letters. */
  lemma {:induction false} LettersOfSquareLetters(s: String)
    requires forall k :: 0 <= k < |s| ==> SquareLetter(s[k])
    ensures LettersOf(s) == s
  {
    if s != [] {
      LettersOfSquareLetters(s[..|s| - 1]);
    }
  }

  /** `extractLetters`. */
  method ExtractLetters(message: String) returns (letters: String, nonLetters: seq<NonLetter>)
    ensures letters == LettersOf(message)
    ensures nonLetters == NonLettersOf(message)
  {
    letters := "";
    nonLetters := [];
    for i := 0 to |message|
      invariant letters == LettersOf(message[..i])
      invariant nonLetters == NonLettersOf(message[..i])
    {
      var c := message[i];
      assert message[..i + 1][..i] == message[..i];
      if IsLetter(c) {
        if c == 'j' || c == 'J' {
          if CheckUpperCase(c) {
            letters := letters + "I";
          } else {
            letters := letters + "i";
          }
        } else {
          letters := letters + [c];
        }
      } else {
        nonLetters := nonLetters + [NonLetter(i, c)];
      }
    }
    assert message[..|message|] == message;
  }

  /** A doubled letter gets a filler and the second copy starts the next
      digraph: "balloon" becomes "ba lx lo on", fillers at position 3. */
  lemma BalloonExample()
    ensures Pairing("balloon") == Digraphs(["ba", "lx", "lo", "on"], [3])
  {
    assert Shift([], 2) == [];
    assert Pairing("") == Digraphs([], []);
    assert "on"[..2] == "on" && "on"[2..] == "";
    assert Pairing("on") == Digraphs(["on"], []);
    assert "loon"[..2] == "lo" && "loon"[2..] == "on";
    assert Pairing("loon") == Digraphs(["lo", "on"], []);
    assert "lloon"[1..] == "loon" && Filler('l') == 'x';
    assert Pairing("lloon") == Digraphs(["lx", "lo", "on"], [1]);
    assert "balloon"[..2] == "ba" && "balloon"[2..] == "lloon";
    assert Shift([1], 2) == [3];
  }
}
