/** The inbound path of the danmaku client: the text of a received chunk is split at every
    NUL (`String.prototype.split('\0')`), and only the pieces longer than 12 code units reach
    the message callback; the shorter ones are the reply to the login and the heartbeat
    acknowledgements. */
module Inbound {
  import opened Bytes
  import opened Transcoder
  import opened Packet

  /** The shortest piece that is passed on is one longer than this. */
  const NoiseLength: nat := 12

  /** `split` with a one-element separator: the maximal runs between separators, always at
      least one piece (the empty input gives one empty piece). */
  function Split<T(==)>(s: seq<T>, sep: T): (r: seq<seq<T>>)
    ensures |r| >= 1
    decreases |s|
  {
    if s == [] then [[]]
    else if s[0] == sep then [[]] + Split(s[1..], sep)
    else
      var rest := Split(s[1..], sep);
      [[s[0]] + rest[0]] + rest[1..]
  }

  /** `join`: the pieces with one separator between neighbours. */
  function Join<T>(ps: seq<seq<T>>, sep: T): seq<T>
    requires |ps| >= 1
    decreases |ps|
  {
    if |ps| == 1 then ps[0] else ps[0] + [sep] + Join(ps[1..], sep)
  }

  /** The pieces that reach the callback, in their original order. */
  function Delivered<T>(ps: seq<seq<T>>): seq<seq<T>>
    decreases |ps|
  {
    if ps == [] then []
    else if |ps[0]| > NoiseLength then [ps[0]] + Delivered(ps[1..])
    else Delivered(ps[1..])
  }

  /** The messages passed to the callback for one chunk of text. */
  function Messages(text: JsString): seq<JsString> {
    Delivered(Split(text, 0))
  }

  // ---------------------------------------------------------------------------------------
  // Splitting
  // ---------------------------------------------------------------------------------------

  /** Joining the pieces with the separator rebuilds the input. */
  lemma {:induction false} JoinSplit<T>(s: seq<T>, sep: T)
    ensures Join(Split(s, sep), sep) == s
    decreases |s|
  {
    if s != [] {
      var rest := Split(s[1..], sep);
      JoinSplit(s[1..], sep);
      if s[0] != sep {
        var r := Split(s, sep);
        assert r[1..] == rest[1..];
        if |rest| > 1 {
          assert Join(r, sep) == [s[0]] + rest[0] + [sep] + Join(rest[1..], sep);
        }
      }
    }
  }

  /** No piece contains the separator. */
  lemma {:induction false} SplitPiecesFree<T>(s: seq<T>, sep: T)
    ensures forall i :: 0 <= i < |Split(s, sep)| ==> sep !in Split(s, sep)[i]
    decreases |s|
  {
    if s != [] {
      SplitPiecesFree(s[1..], sep);
    }
  }

  /** Splitting is the only way to cut a sequence into separator-free pieces that join back
      to it. */
  lemma {:induction false} SplitUnique<T>(ps: seq<seq<T>>, s: seq<T>, sep: T)
    requires |ps| >= 1 && Join(ps, sep) == s
    requires forall i :: 0 <= i < |ps| ==> sep !in ps[i]
    ensures ps == Split(s, sep)
    decreases |s|, |ps[0]|
  {
    if ps[0] == [] {
      if |ps| == 1 {
        assert s == [];
      } else {
        assert s == [sep] + Join(ps[1..], sep);
        assert s[1..] == Join(ps[1..], sep);
        SplitUnique(ps[1..], s[1..], sep);
      }
    } else {
      assert s[0] == ps[0][0];
      var qs := [ps[0][1..]] + ps[1..];
      assert ps[0] == [ps[0][0]] + ps[0][1..];
      if |ps| == 1 {
        assert s[1..] == Join(qs, sep);
      } else {
        assert Join(ps, sep) == [ps[0][0]] + (ps[0][1..] + [sep] + Join(ps[1..], sep));
        assert qs[1..] == ps[1..];
        assert s[1..] == Join(qs, sep);
      }
      assert forall i :: 0 <= i < |qs| ==> sep !in qs[i] by {
        assert forall x :: x in ps[0][1..] ==> x in ps[0];
      }
      SplitUnique(qs, s[1..], sep);
      assert s[0] != sep;
      assert ps == [[s[0]] + qs[0]] + qs[1..];
    }
  }

  /** A sequence without the separator is one piece. */
  lemma {:induction false} SplitWithoutSeparator<T>(s: seq<T>, sep: T)
    requires sep !in s
    ensures Split(s, sep) == [s]
    decreases |s|
  {
    if s != [] {
      SplitWithoutSeparator(s[1..], sep);
      assert [s[0]] + s[1..] == s;
    }
  }

  /** A separator cuts a sequence into the pieces of what precedes it and of what follows. */
  lemma {:induction false} SplitAtSeparator<T>(a: seq<T>, b: seq<T>, sep: T)
    ensures Split(a + [sep] + b, sep) == Split(a, sep) + Split(b, sep)
    decreases |a|
  {
    if a == [] {
      assert a + [sep] + b == [sep] + b;
      assert ([sep] + b)[1..] == b;
    } else {
      var s := a + [sep] + b;
      assert s[0] == a[0] && s[1..] == a[1..] + [sep] + b;
      SplitAtSeparator(a[1..], b, sep);
      if a[0] != sep {
        var front, back := Split(a[1..], sep), Split(b, sep);
        assert (front + back)[1..] == front[1..] + back;
      }
    }
  }

  /** No piece is longer than the input. */
  lemma {:induction false} SplitPieceLength<T>(s: seq<T>, sep: T)
    ensures forall i :: 0 <= i < |Split(s, sep)| ==> |Split(s, sep)[i]| <= |s|
    decreases |s|
  {
    if s != [] {
      SplitPieceLength(s[1..], sep);
    }
  }

  // ---------------------------------------------------------------------------------------
  // Filtering
  // ---------------------------------------------------------------------------------------

  /** A piece reaches the callback exactly when it is one of the pieces and is longer than
      12. */
  lemma {:induction false} DeliveredMembers<T>(ps: seq<seq<T>>, p: seq<T>)
    ensures p in Delivered(ps) <==> p in ps && |p| > NoiseLength
    decreases |ps|
  {
    if ps != [] {
      DeliveredMembers(ps[1..], p);
      assert p in ps <==> p == ps[0] || p in ps[1..];
    }
  }

  /** Filtering keeps the order: the pieces of a concatenation are filtered part by part. */
  lemma {:induction false} DeliveredAppend<T>(ps: seq<seq<T>>, qs: seq<seq<T>>)
    ensures Delivered(ps + qs) == Delivered(ps) + Delivered(qs)
    decreases |ps|
  {
    if ps == [] {
      assert ps + qs == qs;
    } else {
      assert (ps + qs)[1..] == ps[1..] + qs;
      DeliveredAppend(ps[1..], qs);
    }
  }

  /** A chunk whose pieces are all 12 long or shorter yields no message. */
  lemma {:induction false} OnlyNoise<T>(ps: seq<seq<T>>)
    requires forall i :: 0 <= i < |ps| ==> |ps[i]| <= NoiseLength
    ensures Delivered(ps) == []
    decreases |ps|
  {
    if ps != [] {
      OnlyNoise(ps[1..]);
    }
  }

  /** Every message passed on is longer than 12 and holds no NUL, and joining all pieces of
      the chunk with NUL gives the chunk back. */
  lemma MessagesWellFormed(text: JsString)
    ensures forall m :: m in Messages(text) ==> |m| > NoiseLength && 0 !in m
    ensures Join(Split(text, 0), 0) == text
  {
    JoinSplit(text, 0);
    SplitPiecesFree(text, 0);
    forall m | m in Messages(text) ensures |m| > NoiseLength && 0 !in m {
      DeliveredMembers(Split(text, 0), m);
    }
  }

  // ---------------------------------------------------------------------------------------
  // Frames read back
  // ---------------------------------------------------------------------------------------

  /** The pieces of one frame whose body holds no zero byte: those of the first ten header
      bytes (bytes 10 and 11 are zero), an empty piece between those two zeros, the body, and
      the empty piece after the final zero. */
  lemma FramePieces(str: JsString)
    requires 0 !in Encode(str)
    ensures Split(Frame(str), 0) == Split(Frame(str)[..10], 0) + [[], Encode(str), []]
    ensures forall i :: 0 <= i < |Split(Frame(str)[..10], 0)| ==>
      |Split(Frame(str)[..10], 0)[i]| <= 10
  {
    var body := Encode(str);
    var f := Frame(str);
    FrameLayout(str);
    var head := f[..10];
    assert f[10] == 0 && f[11] == 0;
    assert f == head + [0] + ([] + [0] + (body + [0] + []));
    SplitAtSeparator(head, [] + [0] + (body + [0] + []), 0);
    SplitAtSeparator([], body + [0] + [], 0);
    SplitAtSeparator(body, [], 0);
    SplitWithoutSeparator(body, 0);
    SplitPieceLength(head, 0);
  }

  /** Splitting one frame at its zero bytes and dropping the short pieces leaves exactly the
      body, when the body holds no zero and is longer than 12. */
  lemma FrameReadBack(str: JsString)
    requires 0 !in Encode(str) && |Encode(str)| > NoiseLength
    ensures Delivered(Split(Frame(str), 0)) == [Encode(str)]
  {
    var head := Frame(str)[..10];
    var body := Encode(str);
    FramePieces(str);
    OnlyNoise(Split(head, 0));
    DeliveredAppend(Split(head, 0), [[], body, []]);
    assert [[], body, []] == [[]] + ([body] + [[]]);
    DeliveredAppend([[]], [body] + [[]]);
    DeliveredAppend([body], [[]]);
  }

  /** A frame whose body holds no zero and is at most 12 long yields nothing at all. */
  lemma ShortFrameIsNoise(str: JsString)
    requires 0 !in Encode(str) && |Encode(str)| <= NoiseLength
    ensures Delivered(Split(Frame(str), 0)) == []
  {
    var head := Frame(str)[..10];
    var body := Encode(str);
    FramePieces(str);
    var ps := Split(head, 0) + [[], body, []];
    assert forall i :: 0 <= i < |ps| ==> |ps[i]| <= NoiseLength by {
      forall i | 0 <= i < |ps| ensures |ps[i]| <= NoiseLength {
        if i >= |Split(head, 0)| {
          assert ps[i] in [[], body, []];
        }
      }
    }
    OnlyNoise(ps);
  }

  /** For a NUL-free ASCII command longer than 12 the body is the command itself. */
  lemma AsciiFrameReadBack(str: JsString)
    requires forall i :: 0 <= i < |str| ==> 0 < str[i] < 0x80
    requires |str| > NoiseLength
    ensures Delivered(Split(Frame(str), 0)) == [str]
  {
    EncodeAscii(str);
    assert 0 !in Encode(str);
    FrameReadBack(str);
  }
}
