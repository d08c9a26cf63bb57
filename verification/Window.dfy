/** The decoder's circular window (updatewindow and inflateGetDictionary in zlib's inflate.c). */
module Window {
  import opened Arithmetic
  import opened Lz77

  /** The last `n` bytes of a sequence, or all of them. */
  function Last<T>(s: seq<T>, n: nat): (r: seq<T>)
    ensures |r| == Min(n, |s|)
  {
    if |s| <= n then s else s[|s| - n..]
  }

  /** Cutting early does not change what is cut late. */
  lemma LastLast<T>(s: seq<T>, t: seq<T>, n: nat)
    ensures Last(Last(s, n) + t, n) == Last(s + t, n)
  {
    if |s| > n {
      assert (Last(s, n) + t)[|t|..] == (s + t)[|s| + |t| - n..];
    }
  }

  /** The bytes put out in several calls, one after the other. */
  function Joined<T>(chunks: seq<seq<T>>): seq<T> {
    if chunks == [] then [] else Joined(chunks[..|chunks| - 1]) + chunks[|chunks| - 1]
  }

  /** What the window keeps after a number of updates, each of which only keeps the last `n` bytes. */
  function KeptAfter<T>(chunks: seq<seq<T>>, n: nat): seq<T> {
    if chunks == [] then [] else Last(KeptAfter(chunks[..|chunks| - 1], n) + chunks[|chunks| - 1], n)
  }

  /** After any number of updates the window keeps the last bytes of all the output. */
  lemma {:induction false} KeepsLast<T>(chunks: seq<seq<T>>, n: nat)
    ensures KeptAfter(chunks, n) == Last(Joined(chunks), n)
  {
    if chunks != [] {
      var front, c := chunks[..|chunks| - 1], chunks[|chunks| - 1];
      KeepsLast(front, n);
      LastLast(Joined(front), c, n);
    }
  }

  /** The bytes of a circular buffer, oldest first. */
  function Circular<T>(w: seq<T>, next: nat, have: nat): (s: seq<T>)
    requires have <= |w| && next <= |w| && (have < |w| ==> next == have)
    ensures |s| == have
  {
    if have < |w| then w[..have] else w[next..] + w[..next]
  }

  /** Where the `i`-th oldest byte lies. */
  function Place(size: nat, next: nat, have: nat, i: nat): nat {
    if have < size then i else if next + i < size then next + i else next + i - size
  }

  lemma CircularAt<T>(w: seq<T>, next: nat, have: nat, i: nat)
    requires have <= |w| && next <= |w| && (have < |w| ==> next == have) && i < have
    ensures Place(|w|, next, have, i) < |w| && Circular(w, next, have)[i] == w[Place(|w|, next, have, i)]
  {
  }

  /** The new bytes are written from `next` on, with at most one wrap-around. */
  predicate Written<T(==)>(w: seq<T>, w': seq<T>, next: nat, data: seq<T>) {
    && |w| == |w'| && next <= |w|
    && forall j :: 0 <= j < |w| ==>
         w'[j] == if next <= j < next + |data| then data[j - next]
                  else if j + |w| < next + |data| then data[j + |w| - next] else w[j]
  }

  /** Writing less than a whole buffer keeps the last bytes: one of them. */
  lemma WrittenAt<T>(w: seq<T>, w': seq<T>, next: nat, have: nat, data: seq<T>, next': nat, have': nat, i: nat)
    requires have <= |w| && next < |w| && (have < |w| ==> next == have) && |data| < |w| && Written(w, w', next, data)
    requires have' == Min(have + |data|, |w|) && i < have'
    requires next' == if next + |data| < |w| then next + |data| else next + |data| - |w|
    ensures Circular(w', next', have')[i] == (Circular(w, next, have) + data)[have + |data| - have' + i]
  {
    hide Circular;
    var c := have + |data| - have' + i;
    CircularAt(w', next', have', i);
    assert Circular(w', next', have')[i] == w'[Place(|w|, next', have', i)];
    if c < have {
      CircularAt(w, next, have, c);
      assert Place(|w|, next', have', i) == Place(|w|, next, have, c);
    }
  }

  lemma WrittenIsLast<T>(w: seq<T>, w': seq<T>, next: nat, have: nat, data: seq<T>, next': nat, have': nat)
    requires have <= |w| == |w'| && next < |w| && (have < |w| ==> next == have) && |data| < |w|
              && Written(w, w', next, data)
    requires have' == Min(have + |data|, |w|)
    requires next' == if next + |data| < |w| then next + |data| else next + |data| - |w|
    ensures Circular(w', next', have') == Last(Circular(w, next, have) + data, |w|)
  {
    hide Circular, Written;
    var all := Circular(w, next, have) + data;
    forall i | 0 <= i < have'
      ensures Circular(w', next', have')[i] == all[have + |data| - have' + i]
    {
      WrittenAt(w, w', next, have, data, next', have', i);
    }
    assert all[have + |data| - have'..] == Circular(w', next', have');
  }

  class History {
    const size: nat
    const window: array<Byte>
    var wsize: nat
    var whave: nat
    var wnext: nat

    ghost predicate Valid()
      reads this
    {
      && 0 < size <= window.Length && (wsize == size || (wsize == 0 && whave == 0 && wnext == 0))
      && whave <= wsize && (wsize > 0 ==> wnext < wsize) && (whave < wsize ==> wnext == whave)
    }

    /** The bytes in the window, oldest first. */
    ghost function Kept(): (s: seq<Byte>)
      requires Valid()
      reads this, window
      ensures |s| == whave
    {
      Circular(window[..size], wnext, whave)
    }

    /** An empty window, with `padding` bytes behind it that copies by chunks may read. */
    constructor (wbits: nat, padding: nat)
      ensures Valid() && size == Pow2(wbits) && window.Length == size + padding && fresh(window)
      ensures Kept() == [] && wsize == 0
    {
      size := Pow2(wbits);
      window := new Byte[Pow2(wbits) + padding];
      wsize, whave, wnext := 0, 0, 0;
    }

    /** Copies bytes from a buffer into the window (zmemcpy). */
    method CopyIn(to: nat, buf: array<Byte>, from: nat, n: nat)
      requires buf != window && to + n <= window.Length && from + n <= buf.Length
      modifies window
      ensures forall i :: 0 <= i < window.Length ==>
        window[i] == if to <= i < to + n then buf[from + i - to] else old(window[i])
    {
      forall i | to <= i < to + n {
        window[i] := buf[from + i - to];
      }
    }

    /** Copies the last `copy` bytes before `end`, or as many as fit, into the window. */
    method Update(buf: array<Byte>, end: nat, copy: nat)
      requires Valid() && buf != window && copy <= end <= buf.Length
      modifies this, window
      ensures Valid() && wsize == size && Kept() == Last(old(Kept()) + buf[end - copy..end], size)
    {
      ghost var kept, data := Kept(), buf[end - copy..end];
      if wsize == 0 {
        wsize := size;
        wnext := 0;
        whave := 0;
      }
      if copy >= wsize {
        CopyIn(0, buf, end - wsize, wsize);
        wnext := 0;
        whave := wsize;
        assert Kept() == Last(kept + data, size);
      } else {
        UpdatePart(buf, end, copy);
      }
    }

    /** Less than a whole window of new bytes. */
    method UpdatePart(buf: array<Byte>, end: nat, copy: nat)
      requires Valid() && buf != window && copy <= end <= buf.Length && copy < wsize
      modifies this, window
      ensures Valid() && wsize == size && Kept() == Last(old(Kept()) + buf[end - copy..end], size)
    {
      ghost var data, w0, next, have := buf[end - copy..end], window[..size], wnext, whave;
      hide Circular;
      var dist := Min(wsize - wnext, copy);
      CopyIn(wnext, buf, end - copy, dist);
      var rest := copy - dist;
      if rest > 0 {
        CopyIn(0, buf, end - rest, rest);
        wnext := rest;
        whave := wsize;
      } else {
        wnext := wnext + dist;
        if wnext == wsize {
          wnext := 0;
        }
        if whave < wsize {
          whave := whave + dist;
        }
      }
      assert Written(w0, window[..size], next, data);
      WrittenIsLast(w0, window[..size], next, have, data, wnext, whave);
    }

    /** Copies the bytes in the window to `dictionary`, oldest first. */
    method GetDictionary(dictionary: array<Byte>) returns (length: nat)
      requires Valid() && dictionary != window && whave <= dictionary.Length
      modifies dictionary
      ensures length == whave && dictionary[..length] == Kept() && dictionary[length..] == old(dictionary[length..])
    {
      if whave > 0 {
        forall i | 0 <= i < whave - wnext {
          dictionary[i] := window[wnext + i];
        }
        forall i | whave - wnext <= i < whave {
          dictionary[i] := window[i - (whave - wnext)];
        }
      }
      length := whave;
    }

    /** Where the byte `back` bytes before the newest one's end is (state MATCH of inflate). */
    function IndexOf(back: nat): nat
      requires Valid() && 1 <= back <= whave
      reads this
    {
      if back > wnext then wsize - (back - wnext) else wnext - back
    }

    /** How many bytes follow there without a wrap-around. */
    function RunOf(back: nat): nat
      requires Valid() && 1 <= back <= whave
      reads this
    {
      if back > wnext then back - wnext else back
    }

    /** The index arithmetic finds the bytes `back` before the end. */
    lemma BackFromEnd(back: nat, k: nat)
      requires Valid() && 1 <= back <= whave && k < RunOf(back)
      ensures IndexOf(back) + k < window.Length && window[IndexOf(back) + k] == Kept()[whave - back + k]
    {
    }
  }
}
