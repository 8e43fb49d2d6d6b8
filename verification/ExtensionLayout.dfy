/** What the writer writes, in literal bytes: all the ways in which extensions of one, two or three frames
    can meet. Payloads are shorter than 255 bytes here, so that a length is one byte. */
module ExtensionLayout {
  import opened ExtensionSyntax
  import opened ExtensionEncoding

  predicate Short(e: Extension, frame: int) {
    3 <= e.id < 32 && e.frame == frame && e.len == |e.data| <= 1
  }

  predicate Long(e: Extension, frame: int) {
    32 <= e.id <= 127 && e.frame == frame && e.len == |e.data| < 255
  }

  lemma ShortBytes(e: Extension, frame: int, last: bool)
    requires Short(e, frame)
    ensures Writable(e) && ExtensionBytes(e, last) == [2 * e.id + |e.data|] + e.data && PayloadBytes(e, last) == e.data
  {}

  lemma LongBytes(e: Extension, frame: int, last: bool)
    requires Long(e, frame)
    ensures Writable(e)
    ensures last ==> ExtensionBytes(e, last) == [2 * e.id] + e.data && PayloadBytes(e, last) == e.data
    ensures !last ==> ExtensionBytes(e, last) == [2 * e.id + 1, |e.data|] + e.data
                      && PayloadBytes(e, last) == [|e.data|] + e.data
  {}

  lemma Lone(e: Extension, last: bool)
    requires Writable(e)
    ensures RunBytes([e], 0, 1, last) == ExtensionBytes(e, last)
    ensures RunBytes([e], 1, 1, last) == RunBytes([e], 0, 0, last) == []
    ensures PayloadRun([e], 0, 1, last) == PayloadBytes(e, last && IsLongExt(e))
  {
    hide ExtensionBytes, PayloadBytes, Writable;
  }

  lemma Pair(a: Extension, b: Extension, last: bool)
    requires Writable(a) && Writable(b)
    ensures RunBytes([a, b], 0, 2, last) == ExtensionBytes(a, false) + ExtensionBytes(b, last)
    ensures RunBytes([a, b], 0, 1, last) == ExtensionBytes(a, last)
    ensures RunBytes([a, b], 1, 2, last) == ExtensionBytes(b, last)
    ensures RunBytes([a, b], 0, 0, last) == RunBytes([a, b], 1, 1, last) == RunBytes([a, b], 2, 2, last) == []
    ensures PayloadRun([a, b], 0, 1, last) == PayloadBytes(a, last && IsLongExt(a))
  {
    hide ExtensionBytes, PayloadBytes, Writable;
    assert RunBytes([a, b], 1, 2, last) == ExtensionBytes(b, last) + RunBytes([a, b], 2, 2, last);
    assert RunBytes([a, b], 0, 1, last) == ExtensionBytes(a, last) + RunBytes([a, b], 1, 1, last);
  }

  // ----- one frame -----

  /** The last extension of the data does without its length. */
  lemma OneFrame(a: Extension, b: Extension)
    requires Long(a, 0) && Long(b, 0)
    ensures WritableFrames([[a, b]])
    ensures Encode([[a, b]]) == [2 * a.id + 1, |a.data|] + a.data + [2 * b.id] + b.data
  {
    hide ExtensionBytes, PayloadBytes, RunBytes;
    var q := [[a, b]];
    LongBytes(a, 0, false);
    LongBytes(b, 0, true);
    Pair(a, b, true);
    Pair(a, b, false);
    assert !Repeatable(q, 0, 0);
    assert RepeatEnd(q, 0, 0) == 0;
    assert EncodeFrom(q, 1, 0, 0) == [];
  }

  /** The one extension of the repository's smallest packets. */
  lemma OneExtension(a: Extension)
    requires Long(a, 0)
    ensures WritableFrames([[a]])
    ensures Encode([[a]]) == [2 * a.id] + a.data
  {
    hide ExtensionBytes, PayloadBytes, RunBytes;
    var q := [[a]];
    LongBytes(a, 0, true);
    Lone(a, true);
    Lone(a, false);
    assert !Repeatable(q, 0, 0);
    assert RepeatEnd(q, 0, 0) == 0;
    assert EncodeFrom(q, 1, 0, 0) == [];
  }

  // ----- later frames -----

  /** One frame on is a byte 2. */
  lemma NextFrame(a: Extension)
    requires Long(a, 1)
    ensures WritableFrames([[], [a]])
    ensures Encode([[], [a]]) == [2, 2 * a.id] + a.data
  {
    hide ExtensionBytes, PayloadBytes, RunBytes;
    LongBytes(a, 1, true);
    Lone(a, true);
    Lone(a, false);
    var q := [[], [a]];
    assert RepeatEnd(q, 1, 0) == 0;
    assert EncodeFrom(q, 2, 0, 0) == [];
    assert EncodeFrom(q, 1, 0, 0) == [2, 2 * a.id] + a.data;
  }

  /** More than one are a byte 3 and their number. */
  lemma LaterFrame(a: Extension)
    requires Long(a, 2)
    ensures WritableFrames([[], [], [a]])
    ensures Encode([[], [], [a]]) == [3, 2, 2 * a.id] + a.data
  {
    hide ExtensionBytes, PayloadBytes, RunBytes;
    LongBytes(a, 2, true);
    Lone(a, true);
    Lone(a, false);
    var q := [[], [], [a]];
    assert RepeatEnd(q, 2, 0) == 0;
    assert EncodeFrom(q, 3, 0, 0) == [];
    assert EncodeFrom(q, 2, 0, 0) == [3, 2, 2 * a.id] + a.data;
    assert EncodeFrom(q, 1, 0, 0) == EncodeFrom(q, 2, 0, 0);
  }

  /** Extensions of different kinds in two frames: nothing is repeated. */
  lemma Different(a: Extension, b: Extension)
    requires Long(a, 0) && Long(b, 1) && a.id != b.id
    ensures WritableFrames([[a], [b]])
    ensures Encode([[a], [b]]) == [2 * a.id + 1, |a.data|] + a.data + [2, 2 * b.id] + b.data
  {
    hide ExtensionBytes, PayloadBytes, RunBytes;
    var q := [[a], [b]];
    LongBytes(a, 0, false);
    LongBytes(b, 1, true);
    Lone(a, false);
    Lone(b, true);
    Lone(b, false);
    assert q[1][0] == b && q[0][0] == a;
    assert !Repeatable(q, 0, 0) && !Repeatable(q, 1, 0);
    assert RepeatEnd(q, 0, 0) == 0 && RepeatEnd(q, 1, 0) == 0;
    assert !AllEnd(q, 1, 0) by {
      assert |q[1]| == 1;
    }
    assert EncodeFrom(q, 2, 0, 0) == [];
    assert EncodeFrom(q, 1, 0, 0) == [2, 2 * b.id] + b.data;
  }

  // ----- repeats -----

  /** The same kind in both frames: it is written once, then the byte 4, and then the other payload. */
  lemma Repeated(a: Extension, b: Extension)
    requires Long(a, 0) && Long(b, 1) && a.id == b.id
    ensures WritableFrames([[a], [b]])
    ensures Encode([[a], [b]]) == [2 * a.id + 1, |a.data|] + a.data + [4] + b.data
  {
    hide ExtensionBytes, PayloadBytes, RunBytes, PayloadRun;
    var q := [[a], [b]];
    LongBytes(a, 0, false);
    LongBytes(b, 1, true);
    Lone(a, false);
    Lone(a, true);
    Lone(b, true);
    RepeatedOnce(q);
    RepeatOf(q, true);
    assert EncodeFrom(q, 1, 1, 1) == [];
  }

  /** Short ones, if they have the same size. */
  lemma RepeatedShort(a: Extension, b: Extension)
    requires Short(a, 0) && Short(b, 1) && a.id == b.id
    ensures WritableFrames([[a], [b]])
    ensures Encode([[a], [b]]) == if |a.data| == |b.data| then [2 * a.id + |a.data|] + a.data + [4] + b.data
                                  else [2 * a.id + |a.data|] + a.data + [2, 2 * b.id + |b.data|] + b.data
  {
    hide ExtensionBytes, PayloadBytes, RunBytes, PayloadRun;
    var q := [[a], [b]];
    ShortBytes(a, 0, false);
    ShortBytes(b, 1, true);
    ShortBytes(b, 1, false);
    Lone(a, false);
    Lone(a, true);
    Lone(b, true);
    Lone(b, false);
    assert q[0][0] == a && q[1][0] == b;
    if |a.data| == |b.data| {
      RepeatedOnce(q);
      RepeatOf(q, true);
      assert EncodeFrom(q, 1, 1, 1) == [];
    } else {
      assert !Repeatable(q, 0, 0) && !Repeatable(q, 1, 0);
      assert RepeatEnd(q, 0, 0) == 0 && RepeatEnd(q, 1, 0) == 0;
      assert !AllEnd(q, 1, 0) by {
        assert |q[1]| == 1;
      }
      assert EncodeFrom(q, 2, 0, 0) == [];
      assert EncodeFrom(q, 1, 0, 0) == [2, 2 * b.id + |b.data|] + b.data;
    }
  }

  lemma RepeatedOnce(q: Frames)
    requires |q| == 2 && |q[0]| >= 1 && |q[1]| >= 1 && Compatible(q[0][0], q[1][0])
    requires |q[0]| == 1 || |q[1]| == 1 || !Compatible(q[0][1], q[1][1])
    ensures RepeatEnd(q, 0, 0) == 1
  {
    assert Repeatable(q, 0, 0) && !Repeatable(q, 0, 1);
  }

  lemma RepeatOf(q: Frames, last: bool)
    requires WritableFrames(q) && |q| == 2 && |q[0]| >= 1 && |q[1]| >= 1
    ensures RepeatBytes(q, 0, 1, 1, last) == PayloadRun(q[1], 0, 1, last)
  {
    hide PayloadRun;
    assert RepeatBytes(q, 0, 1, 2, last) == [];
  }

  /** With more to come in the frame of the indicator, it is the byte 5, and lengths are kept. */
  lemma RepeatedThenMore(a: Extension, x: Extension, b: Extension)
    requires Long(a, 0) && Long(x, 0) && Long(b, 1) && a.id == b.id
    ensures WritableFrames([[a, x], [b]])
    ensures Encode([[a, x], [b]])
         == [2 * a.id + 1, |a.data|] + a.data + [5, |b.data|] + b.data + [2 * x.id] + x.data
  {
    hide ExtensionBytes, PayloadBytes, RunBytes, PayloadRun;
    var q := [[a, x], [b]];
    LongBytes(a, 0, false);
    LongBytes(x, 0, true);
    LongBytes(b, 1, false);
    Pair(a, x, false);
    Pair(a, x, true);
    Lone(b, false);
    RepeatedOnce(q);
    RepeatOf(q, false);
    assert !AllEnd(q, 0, 1) by {
      assert |q[0]| == 2;
    }
    assert AllEnd(q, 1, 1);
    assert EncodeFrom(q, 1, 1, 0) == [] by {
      assert EncodeFrom(q, 2, 1, 0) == [];
    }
  }

  /** With more to come in the other frame, the byte 4 leads there if no payload needs its length. */
  lemma RepeatedShortThenMore(a: Extension, b: Extension, y: Extension)
    requires Short(a, 0) && Short(b, 1) && Long(y, 1) && a.id == b.id && |a.data| == |b.data|
    ensures WritableFrames([[a], [b, y]])
    ensures Encode([[a], [b, y]]) == [2 * a.id + |a.data|] + a.data + [4] + b.data + [2 * y.id] + y.data
  {
    hide ExtensionBytes, PayloadBytes, RunBytes, PayloadRun;
    var q := [[a], [b, y]];
    ShortBytes(a, 0, false);
    ShortBytes(b, 1, false);
    LongBytes(y, 1, true);
    Lone(a, false);
    Lone(a, true);
    Pair(b, y, true);
    Pair(b, y, false);
    RepeatedOnce(q);
    RepeatOf(q, true);
    assert RepeatIsLast(q, 0, 0, 1) && FrameAfter(q, 0, 0, 1) == 1 by {
      assert !HasLongExt(q[0], 0, 1);
    }
    assert EncodeFrom(q, 2, 1, 1) == [];
    assert !Repeatable(q, 1, 1);
    assert RepeatEnd(q, 1, 1) == 1;
    assert EncodeFrom(q, 1, 1, 1) == [2 * y.id] + y.data;
    assert !AllEnd(q, 1, 1) by {
      assert |q[1]| == 2;
    }
  }

  /** A long payload would need it: the byte 5, and a separator. */
  lemma RepeatedLongThenMore(a: Extension, b: Extension, y: Extension)
    requires Long(a, 0) && Long(b, 1) && Long(y, 1) && a.id == b.id
    ensures WritableFrames([[a], [b, y]])
    ensures Encode([[a], [b, y]])
         == [2 * a.id + 1, |a.data|] + a.data + [5, |b.data|] + b.data + [2, 2 * y.id] + y.data
  {
    hide ExtensionBytes, PayloadBytes, RunBytes, PayloadRun;
    var q := [[a], [b, y]];
    LongBytes(a, 0, false);
    LongBytes(b, 1, false);
    LongBytes(y, 1, true);
    Lone(a, false);
    Lone(a, true);
    Pair(b, y, true);
    Pair(b, y, false);
    RepeatedOnce(q);
    RepeatOf(q, false);
    assert !AllEnd(q, 0, 1) && !AllEnd(q, 1, 1) by {
      assert |q[1]| == 2;
    }
    assert EncodeFrom(q, 2, 1, 0) == [];
    assert RepeatEnd(q, 1, 1) == 1;
    assert EncodeFrom(q, 1, 1, 0) == [2, 2 * y.id] + y.data;
    assert HasLongExt(q[0], 0, 1);
  }
}
