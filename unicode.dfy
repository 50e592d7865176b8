/**
 * `UnicodeString` (src/app/unicode.rs): a string addressed by code point.
 * It keeps the UTF-8 bytes, the number of code points and a table giving the
 * byte offset at which each code point starts. The ghost `chars` is the
 * sequence of code points the object stands for; `Valid` ties the three
 * concrete fields to it, and every operation is proved to keep `Valid` and to
 * perform the obvious splice on `chars`.
 */
module Unicode {
  import opened Optional
  import opened Utf8

  /** Offset-table facts: where the code points of a spliced string start. */

  lemma EncodeSplit(s: seq<char>, i: nat)
    requires i <= |s|
    ensures Encode(s) == Encode(s[..i]) + Encode(s[i..])
    ensures |Encode(s[..i])| == ByteLen(s[..i])
  {
    assert s == s[..i] + s[i..];
    EncodeAppend(s[..i], s[i..]);
    EncodeLength(s[..i]);
  }

  lemma EncodeOne(c: char)
    ensures Encode([c]) == EncodeChar(c)
  {
    assert [c][1..] == [];
  }

  /** Offsets after inserting `c` at `idx`: earlier ones stay, later ones move up by its width. */
  lemma InsertOffset(s: seq<char>, idx: nat, c: char, k: nat)
    requires idx <= |s| && k <= |s| + 1
    ensures ByteLen((s[..idx] + [c] + s[idx..])[..k])
         == if k <= idx then ByteLen(s[..k]) else ByteLen(s[..k - 1]) + Width(c)
  {
    var t := s[..idx] + [c] + s[idx..];
    if k <= idx {
      assert t[..k] == s[..k];
    } else {
      assert t[..k] == s[..idx] + [c] + s[idx..k - 1];
      ByteLenAppend(s[..idx] + [c], s[idx..k - 1]);
      ByteLenAppend(s[..idx], [c]);
      ByteLenOne(c);
      ByteLenSplit(s, idx, k - 1);
    }
  }

  /** Offsets after removing code points `[a, b)`: earlier ones stay, later ones move down by the removed bytes. */
  lemma DrainOffset(s: seq<char>, a: nat, b: nat, k: nat)
    requires a <= b <= |s| && k <= |s| - (b - a)
    ensures ByteLen((s[..a] + s[b..])[..k])
         == if k <= a then ByteLen(s[..k]) else ByteLen(s[..k + (b - a)]) - ByteLen(s[a..b])
  {
    var t := s[..a] + s[b..];
    if k <= a {
      assert t[..k] == s[..k];
    } else {
      var m := k + (b - a);
      assert t[..k] == s[..a] + s[b..m];
      ByteLenAppend(s[..a], s[b..m]);
      ByteLenSplit(s, a, m);
      assert s[a..m] == s[a..b] + s[b..m];
      ByteLenAppend(s[a..b], s[b..m]);
    }
  }

  /** Bytes after removing code points `[a, b)`: the bytes before and after the removed span. */
  lemma DrainBytes(s: seq<char>, a: nat, b: nat)
    requires a <= b <= |s|
    ensures ByteLen(s[..a]) <= ByteLen(s[..b]) <= |Encode(s)|
    ensures Encode(s)[ByteLen(s[..a])..ByteLen(s[..b])] == Encode(s[a..b])
    ensures Encode(s[..a] + s[b..])
         == Encode(s)[..ByteLen(s[..a])] + Encode(s)[ByteLen(s[..b])..]
  {
    EncodeThree(s, a, b);
    EncodeAppend(s[..a], s[b..]);
    ThreeParts(Encode(s[..a]), Encode(s[a..b]), Encode(s[b..]));
  }

  /** The bytes of `s` are those of its three pieces around `[a, b)`, with their lengths. */
  lemma EncodeThree(s: seq<char>, a: nat, b: nat)
    requires a <= b <= |s|
    ensures Encode(s) == Encode(s[..a]) + Encode(s[a..b]) + Encode(s[b..])
    ensures |Encode(s[..a])| == ByteLen(s[..a]) && |Encode(s[a..b])| == ByteLen(s[a..b])
    ensures ByteLen(s[..b]) == ByteLen(s[..a]) + ByteLen(s[a..b])
  {
    assert Encode(s[..b]) == Encode(s[..a]) + Encode(s[a..b]) by {
      assert s[..a] + s[a..b] == s[..b];
      EncodeAppend(s[..a], s[a..b]);
    }
    assert s[..b] + s[b..] == s;
    EncodeAppend(s[..b], s[b..]);
    EncodeLength(s[..a]);
    EncodeLength(s[a..b]);
    ByteLenSplit(s, a, b);
  }

  lemma ThreeParts(p: seq<byte>, m: seq<byte>, q: seq<byte>)
    ensures (p + m + q)[..|p|] == p && (p + m + q)[|p|..|p| + |m|] == m && (p + m + q)[|p| + |m|..] == q
  {
  }

  /** Cutting entries `[x, y)` out of a table: earlier entries stay, later ones move down by `y - x` places. */
  lemma Cut(a: seq<nat>, x: nat, y: nat)
    requires x <= y <= |a|
    ensures |a[..x] + a[y..]| == |a| - (y - x)
    ensures forall k :: 0 <= k < x ==> (a[..x] + a[y..])[k] == a[k]
    ensures forall k :: x <= k < |a| - (y - x) ==> (a[..x] + a[y..])[k] == a[k + (y - x)]
  {
  }

  /** `t` is the offset table of `s`: entry `i` is the sum of the widths of code points `0..i`. */
  ghost predicate Table(t: seq<nat>, s: seq<char>) {
    |t| == |s| && forall i :: 0 <= i < |t| ==> t[i] == ByteLen(s[..i])
  }

  /** Every offset of a table lies inside the bytes of its string. */
  lemma TableInRange(t: seq<nat>, s: seq<char>)
    requires Table(t, s)
    ensures forall i :: 0 <= i < |t| ==> t[i] < ByteLen(s)
  {
    forall i | 0 <= i < |t|
      ensures t[i] < ByteLen(s)
    {
      OffsetsIncrease(s, i, |s|);
      assert s[..|s|] == s;
    }
  }

  /** Bytes after inserting `c` at code point `idx`: its encoding lands at that code point's offset. */
  lemma InsertBytes(s: seq<char>, idx: nat, c: char)
    requires idx <= |s|
    ensures ByteLen(s[..idx]) <= |Encode(s)|
    ensures Encode(s[..idx] + [c] + s[idx..])
         == Encode(s)[..ByteLen(s[..idx])] + EncodeChar(c) + Encode(s)[ByteLen(s[..idx])..]
  {
    EncodeSplit(s, idx);
    EncodeAppend(s[..idx], [c]);
    EncodeAppend(s[..idx] + [c], s[idx..]);
    EncodeOne(c);
  }

  /** Every entry of `a` from `from` on is at least `w`. */
  predicate AtLeastFrom(a: seq<nat>, from: nat, w: nat) {
    forall k :: from <= k < |a| ==> a[k] >= w
  }

  /** `a` with every entry from `from` on raised by `w`. */
  function Raised(a: seq<nat>, from: nat, w: nat): (r: seq<nat>)
    requires from <= |a|
    ensures |r| == |a|
    ensures forall k :: 0 <= k < from ==> r[k] == a[k]
    ensures forall k :: from <= k < |a| ==> r[k] == a[k] + w
  {
    a[..from] + seq(|a| - from, i requires 0 <= i < |a| - from => a[from + i] + w)
  }

  /** `a` with every entry from `from` on lowered by `w`. */
  function Lowered(a: seq<nat>, from: nat, w: nat): (r: seq<nat>)
    requires from <= |a| && AtLeastFrom(a, from, w)
    ensures |r| == |a|
    ensures forall k :: 0 <= k < from ==> r[k] == a[k]
    ensures forall k :: from <= k < |a| ==> r[k] == a[k] - w
  {
    a[..from] + seq(|a| - from, i requires 0 <= i < |a| - from => a[from + i] - w)
  }

  /**
   * The table after an insertion: duplicating entry `idx` and raising every
   * entry after it by the width of `c` gives the table of the spliced string.
   */
  lemma InsertTable(s: seq<char>, idx: nat, c: char, a: seq<nat>)
    requires idx < |s| && Table(a, s)
    ensures Table(Raised(a[..idx] + [a[idx]] + a[idx..], idx + 1, Width(c)), s[..idx] + [c] + s[idx..])
  {
    var d := a[..idx] + [a[idx]] + a[idx..];
    assert forall k :: idx < k < |d| ==> d[k] == a[k - 1];
    var b := Raised(d, idx + 1, Width(c));
    forall k | 0 <= k < |b|
      ensures b[k] == ByteLen((s[..idx] + [c] + s[idx..])[..k])
    {
      InsertOffset(s, idx, c, k);
    }
  }

  /**
   * The table after removing `[x, y)`: cutting those entries out and lowering
   * every later one by the bytes removed gives the table of the spliced string.
   */
  lemma DrainTable(s: seq<char>, x: nat, y: nat, a: seq<nat>)
    requires x <= y <= |s| && Table(a, s)
    ensures AtLeastFrom(a[..x] + a[y..], x, ByteLen(s[x..y]))
    ensures Table(Lowered(a[..x] + a[y..], x, ByteLen(s[x..y])), s[..x] + s[y..])
  {
    Cut(a, x, y);
    var d := a[..x] + a[y..];
    forall k | x <= k < |d|
      ensures d[k] >= ByteLen(s[x..y])
    {
      DrainOffset(s, x, y, k);
      if k == x {
        ByteLenSplit(s, x, y);
      }
    }
    var b := Lowered(d, x, ByteLen(s[x..y]));
    forall k | 0 <= k < |b|
      ensures b[k] == ByteLen((s[..x] + s[y..])[..k])
    {
      DrainOffset(s, x, y, k);
      if k == x {
        ByteLenSplit(s, x, y);
      }
    }
  }

  /**
   * How `insert` changes the offsets: those up to `idx` stay, the new one is
   * the old byte offset of code point `idx`, and every later one moves up by
   * the width of `c`.
   */
  lemma InsertShifts(s: seq<char>, idx: nat, c: char, a: seq<nat>, b: seq<nat>)
    requires idx <= |s| && Table(a, s) && Table(b, s[..idx] + [c] + s[idx..])
    ensures |b| == |a| + 1 && b[..idx] == a[..idx] && b[idx] == ByteLen(s[..idx])
    ensures forall k :: idx < k < |b| ==> b[k] == a[k - 1] + Width(c)
  {
    forall k | 0 <= k < idx
      ensures b[k] == a[k]
    {
      InsertOffset(s, idx, c, k);
    }
    assert b[idx] == ByteLen(s[..idx]) by {
      InsertOffset(s, idx, c, idx);
    }
    forall k | idx < k < |b|
      ensures b[k] == a[k - 1] + Width(c)
    {
      InsertOffset(s, idx, c, k);
    }
    assert b[..idx] == a[..idx];
  }

  /**
   * How `drain` changes the offsets: those before `x` stay, the offsets of
   * `[x, y)` go, and every later one moves down by the bytes removed.
   */
  lemma DrainShifts(s: seq<char>, x: nat, y: nat, a: seq<nat>, b: seq<nat>)
    requires x <= y <= |s| && Table(a, s) && Table(b, s[..x] + s[y..])
    ensures |b| == |a| - (y - x) && b[..x] == a[..x]
    ensures forall k :: x <= k < |b| ==> b[k] == a[k + (y - x)] - ByteLen(s[x..y])
  {
    forall k | 0 <= k < x
      ensures b[k] == a[k]
    {
      DrainOffset(s, x, y, k);
    }
    forall k | x <= k < |b|
      ensures b[k] == a[k + (y - x)] - ByteLen(s[x..y])
    {
      DrainOffset(s, x, y, k);
      if k == x {
        ByteLenSplit(s, x, y);
      }
    }
    assert b[..x] == a[..x];
  }

  /** How `remove` changes the offsets: the one of code point `idx` goes and every later one moves down by its width. */
  lemma RemoveShifts(s: seq<char>, idx: nat, a: seq<nat>, b: seq<nat>)
    requires idx < |s| && Table(a, s) && Table(b, s[..idx] + s[idx + 1..])
    ensures |b| == |a| - 1 && b[..idx] == a[..idx]
    ensures forall k :: idx <= k < |b| ==> b[k] == a[k + 1] - Width(s[idx])
  {
    DrainShifts(s, idx, idx + 1, a, b);
    ByteLenSplit(s, idx, idx + 1);
    OffsetStep(s, idx);
  }

  /** What removing code point `idx` relies on: its width, where its bytes lie, and that it decodes there. */
  lemma RemoveFacts(s: seq<char>, idx: nat, a: seq<nat>)
    requires idx < |s| && Table(a, s)
    ensures ByteLen(s[idx..idx + 1]) == Width(s[idx])
    ensures a[idx] + Width(s[idx]) <= |Encode(s)|
    ensures Encode(s[..idx] + s[idx + 1..])
         == Encode(s)[..a[idx]] + Encode(s)[a[idx] + Width(s[idx])..]
    ensures a[idx] < |Encode(s)| && DecodeChar(Encode(s)[a[idx]..]) == Some(s[idx])
  {
    var start := a[idx];
    assert start == ByteLen(s[..idx]);
    assert start < |Encode(s)| && DecodeChar(Encode(s)[start..]) == Some(s[idx]) by {
      DecodeAtOffset(s, idx);
    }
    var stop := ByteLen(s[..idx + 1]);
    assert stop == start + Width(s[idx]) == start + ByteLen(s[idx..idx + 1]) by {
      OffsetStep(s, idx);
      ByteLenSplit(s, idx, idx + 1);
    }
    var e := Encode(s);
    assert Encode(s[..idx] + s[idx + 1..]) == e[..start] + e[stop..] by {
      DrainBytes(s, idx, idx + 1);
    }
  }

  /** What removing `[x, y)` relies on: where the removed bytes start and end. */
  lemma DrainFacts(s: seq<char>, x: nat, y: nat, a: seq<nat>)
    requires x < y <= |s| && Table(a, s)
    ensures a[x] <= ByteLen(s[..y]) <= |Encode(s)|
    ensures y == |s| ==> ByteLen(s[..y]) == |Encode(s)|
    ensures y < |s| ==> a[y] == ByteLen(s[..y])
    ensures ByteLen(s[..y]) - a[x] == ByteLen(s[x..y])
    ensures Encode(s)[a[x]..ByteLen(s[..y])] == Encode(s[x..y])
    ensures Encode(s[..x] + s[y..]) == Encode(s)[..a[x]] + Encode(s)[ByteLen(s[..y])..]
  {
    DrainBytes(s, x, y);
    ByteLenSplit(s, x, y);
    EncodeLength(s);
    assert s[..|s|] == s;
  }

  class UnicodeString {
    /** `inner_string`: the UTF-8 bytes. */
    var bytes: seq<byte>
    /** `length`: the number of code points. */
    var length: nat
    /** `inner_indices`: the byte offset at which each code point starts. */
    var indices: seq<nat>
    /** The code points this string stands for. */
    ghost var chars: seq<char>

    /**
     * The invariant of unicode.rs:3-7: the bytes encode `chars`, `length`
     * counts them, and offset `i` is the sum of the widths of code points `0..i`.
     * It determines every concrete field from `chars`.
     */
    ghost predicate Valid()
      reads this
      ensures Valid() ==> |bytes| == ByteLen(chars) && |indices| == length == |chars|
    {
      EncodeLength(chars);
      bytes == Encode(chars) && length == |chars| && Table(indices, chars)
    }

    /** `UnicodeString::new`. */
    constructor ()
      ensures Valid() && chars == [] && bytes == [] && length == 0 && indices == []
    {
      bytes, length, indices := [], 0, [];
      chars := [];
    }

    /** `UnicodeString::from`: copies the bytes of `src`, then counts its code points and records where each starts. */
    constructor From(src: seq<char>)
      ensures Valid() && chars == src
      ensures length == |src| && bytes == Encode(src)
      ensures forall i :: 0 <= i < |src| ==> indices[i] == ByteLen(src[..i])
    {
      bytes, length, indices := Encode(src), 0, [];
      chars := src;
      new;
      var i, idx := 0, 0;
      while i < |src|
        invariant i <= |src| && length == i && |indices| == i
        invariant idx == ByteLen(src[..i])
        invariant forall k :: 0 <= k < i ==> indices[k] == ByteLen(src[..k])
        modifies this`length, this`indices
      {
        length := length + 1;
        indices := indices + [idx];
        OffsetStep(src, i);
        idx := idx + Width(src[i]);
        i := i + 1;
      }
    }

    /** `length()`. */
    function Length(): (n: nat)
      reads this
      requires Valid()
      ensures n == |chars|
    {
      length
    }

    /** `as_str()`: the UTF-8 bytes of the code points. */
    function AsStr(): (r: seq<byte>)
      reads this
      requires Valid()
      ensures r == Encode(chars)
      ensures |r| == ByteLen(chars)
    {
      EncodeLength(chars);
      bytes
    }

    /** `push`: the old byte length becomes the new offset, then the bytes of `ch` are appended. */
    method Push(ch: char)
      requires Valid()
      modifies this`bytes, this`length, this`indices, this`chars
      ensures Valid()
      ensures chars == old(chars) + [ch]
      ensures indices == old(indices) + [|old(bytes)|]
      ensures bytes == old(bytes) + EncodeChar(ch)
      ensures length == old(length) + 1
    {
      EncodeLength(chars);
      EncodeAppend(chars, [ch]);
      EncodeOne(ch);
      indices := indices + [|bytes|];
      bytes := bytes + EncodeChar(ch);
      length := length + 1;
      ghost var before := chars;
      chars := chars + [ch];
      assert chars[..|before|] == before;
      forall i | 0 <= i < |before|
        ensures chars[..i] == before[..i]
      {
      }
    }

    /** `push_str`: pushes each code point of `s` in order. */
    method PushStr(s: seq<char>)
      requires Valid()
      modifies this`bytes, this`length, this`indices, this`chars
      ensures Valid()
      ensures chars == old(chars) + s
      ensures indices[..old(length)] == old(indices)
    {
      var i := 0;
      while i < |s|
        invariant i <= |s|
        invariant Valid() && chars == old(chars) + s[..i]
        invariant |indices| >= old(length) && indices[..old(length)] == old(indices)
      {
        Push(s[i]);
        assert s[..i + 1] == s[..i] + [s[i]];
        i := i + 1;
      }
      assert s[..i] == s;
    }

    /** The loop `for inner_idx in &mut self.inner_indices[from..] { *inner_idx += w; }`. */
    method ShiftUp(from: nat, w: nat)
      requires from <= |indices|
      modifies this`indices
      ensures indices == Raised(old(indices), from, w)
    {
      var j := from;
      while j < |indices|
        invariant from <= j <= |indices| == |old(indices)|
        invariant forall k :: 0 <= k < from ==> indices[k] == old(indices)[k]
        invariant forall k :: from <= k < j ==> indices[k] == old(indices)[k] + w
        invariant forall k :: j <= k < |indices| ==> indices[k] == old(indices)[k]
      {
        indices := indices[j := indices[j] + w];
        j := j + 1;
      }
    }

    /** The loop `for inner_idx in &mut self.inner_indices[from..] { *inner_idx -= w; }`; no entry goes below 0. */
    method ShiftDown(from: nat, w: nat)
      requires from <= |indices| && AtLeastFrom(indices, from, w)
      modifies this`indices
      ensures indices == Lowered(old(indices), from, w)
    {
      var j := from;
      while j < |indices|
        invariant from <= j <= |indices| == |old(indices)|
        invariant forall k :: 0 <= k < from ==> indices[k] == old(indices)[k]
        invariant forall k :: from <= k < j ==> indices[k] == old(indices)[k] - w
        invariant forall k :: j <= k < |indices| ==> indices[k] == old(indices)[k]
      {
        indices := indices[j := indices[j] - w];
        j := j + 1;
      }
    }

    /**
     * `insert` (unicode.rs:49-65): at the end it pushes; elsewhere it inserts the
     * bytes of `ch` at the offset of code point `idx`, duplicates that offset
     * and shifts every later one by the width of `ch`.
     */
    method Insert(idx: nat, ch: char)
      requires Valid() && idx <= length
      modifies this`bytes, this`length, this`indices, this`chars
      ensures Valid()
      ensures chars == old(chars)[..idx] + [ch] + old(chars)[idx..]
      ensures length == old(length) + 1
    {
      if idx == length {
        assert chars[..idx] == chars && chars[idx..] == [];
        EncodeLength(chars);
        Push(ch);
      } else {
        ghost var s, a := chars, indices;
        var innerIdx := indices[idx];
        InsertBytes(s, idx, ch);
        InsertTable(s, idx, ch, a);
        ghost var e := Encode(s);
        assert innerIdx == ByteLen(s[..idx]) && bytes == e;
        bytes := bytes[..innerIdx] + EncodeChar(ch) + bytes[innerIdx..];
        assert bytes == e[..ByteLen(s[..idx])] + EncodeChar(ch) + e[ByteLen(s[..idx])..];
        indices := indices[..idx] + [innerIdx] + indices[idx..];
        ShiftUp(idx + 1, Width(ch));
        length := length + 1;
        chars := s[..idx] + [ch] + s[idx..];
      }
    }

    /**
     * `remove` (unicode.rs:67-78): drops the offset of code point `idx`, cuts
     * the code point decoded at that offset out of the bytes and shifts every
     * later offset down by its width.
     */
    method Remove(idx: nat)
      requires Valid() && idx < length
      modifies this`bytes, this`length, this`indices, this`chars
      ensures Valid()
      ensures chars == old(chars)[..idx] + old(chars)[idx + 1..]
      ensures length == old(length) - 1
    {
      ghost var s, a := chars, indices;
      var n := length - 1;
      var innerIdx := indices[idx];
      // String::remove decodes the code point at the offset to learn its width.
      RemoveFacts(s, idx, a);
      var decoded := DecodeChar(bytes[innerIdx..]);
      var w := Width(decoded.value);
      assert w == Width(s[idx]) == ByteLen(s[idx..idx + 1]);
      DrainTable(s, idx, idx + 1, a);
      ghost var e := Encode(s);
      assert innerIdx == a[idx] && bytes == e;
      indices := indices[..idx] + indices[idx + 1..];
      bytes := bytes[..innerIdx] + bytes[innerIdx + w..];
      assert bytes == e[..a[idx]] + e[a[idx] + Width(s[idx])..];
      ShiftDown(idx, w);
      length := n;
      chars := s[..idx] + s[idx + 1..];
    }

    /**
     * `drain` (unicode.rs:80-104): removes code points `[start, end)` and
     * returns their bytes. An empty range returns nothing and changes nothing;
     * otherwise the offsets of the range go and later offsets move down by the
     * number of removed bytes.
     */
    method Drain(start: nat, end: nat) returns (removed: seq<byte>)
      requires Valid() && start <= end && start <= length && end <= length
      modifies this`bytes, this`length, this`indices, this`chars
      ensures Valid()
      ensures removed == Encode(old(chars)[start..end])
      ensures chars == old(chars)[..start] + old(chars)[end..]
      ensures length == old(length) - (end - start)
      ensures start == end ==> removed == [] && bytes == old(bytes) && indices == old(indices)
    {
      if start == end {
        assert chars[start..end] == [];
        assert chars[..start] + chars[end..] == chars;
        removed := [];
      } else {
        ghost var s, a := chars, indices;
        var innerStart := indices[start];
        var innerEnd := if end == length then |bytes| else indices[end];
        DrainFacts(s, start, end, a);
        var removedBytes := innerEnd - innerStart;
        DrainTable(s, start, end, a);
        ghost var e := Encode(s);
        assert innerStart == a[start] && innerEnd == ByteLen(s[..end]) && bytes == e;
        assert removedBytes == ByteLen(s[start..end]);
        indices := indices[..start] + indices[end..];
        ShiftDown(start, removedBytes);
        length := length - (end - start);
        removed := bytes[innerStart..innerEnd];
        assert removed == e[a[start]..ByteLen(s[..end])];
        bytes := bytes[..innerStart] + bytes[innerEnd..];
        assert bytes == e[..a[start]] + e[ByteLen(s[..end])..];
        chars := s[..start] + s[end..];
      }
    }
  }

  /** Inserting a code point and removing it again restores the string, bytes and offsets included. */
  method InsertThenRemove(u: UnicodeString, idx: nat, ch: char)
    requires u.Valid() && idx <= u.length
    modifies u
    ensures u.Valid() && u.chars == old(u.chars)
    ensures u.bytes == old(u.bytes) && u.indices == old(u.indices) && u.length == old(u.length)
  {
    ghost var s := u.chars;
    u.Insert(idx, ch);
    u.Remove(idx);
    assert u.chars == s;
  }
}

/**
 * The debug self-check of unicode.rs:110-176, step for step: every comparison
 * it makes is proved to succeed, so it always returns true. The one string
 * it works on is passed from phase to phase.
 */
module UnicodeSelfTest {
  import opened Utf8
  import opened Unicode

  method SelfTest() returns (ok: bool)
    ensures ok
  {
    var e := new UnicodeString();
    if e.AsStr() != [] || e.Length() != 0 {
      return false;
    }
    var str := new UnicodeString.From("test");
    if str.AsStr() != Encode("test") || str.Length() != 4 {
      return false;
    }
    ok := Insertions(str);
    if !ok {
      return;
    }
    ok := Removals(str);
    if !ok {
      return;
    }
    ok := RemoveAll(str);
    if !ok {
      return;
    }
    ok := TwoByteInsert(str);
    if !ok {
      return;
    }
    ok := TwoByteRemove(str);
    if !ok {
      return;
    }
    ok := PushStrAndDrain(str);
  }

  /** unicode.rs:124-131: insertions at the end, the start and the middle, then a push. */
  method Insertions(str: UnicodeString) returns (ok: bool)
    requires str.Valid() && str.chars == "test"
    modifies str
    ensures ok && str.Valid() && str.chars == "_testy!_"
  {
    InsertionSplices();
    str.Insert(4, '!');
    str.Insert(0, '_');
    str.Insert(5, 'y');
    str.Push('_');
    if str.AsStr() != Encode("_testy!_") || str.Length() != 8 {
      return false;
    }
    return true;
  }

  /** The strings the insertions of unicode.rs:124-131 produce, one step at a time. */
  lemma InsertionSplices()
    ensures "test"[..4] + ['!'] + "test"[4..] == "test!"
    ensures "test!"[..0] + ['_'] + "test!"[0..] == "_test!"
    ensures "_test!"[..5] + ['y'] + "_test!"[5..] == "_testy!"
    ensures "_testy!" + ['_'] == "_testy!_"
  {
    assert "test"[..4] == "test" && "test"[4..] == [];
    assert "test!"[..0] == [] && "test!"[0..] == "test!";
    assert "_test!"[..5] == "_test" && "_test!"[5..] == "!";
  }

  /** The strings the removals of unicode.rs:133-139 produce, one step at a time. */
  lemma RemovalSplices()
    ensures "_testy!_"[..0] + "_testy!_"[1..] == "testy!_"
    ensures "testy!_"[..6] + "testy!_"[7..] == "testy!"
    ensures "testy!"[..4] + "testy!"[5..] == "test!"
  {
    assert "_testy!_"[..0] == [] && "_testy!_"[1..] == "testy!_";
    assert "testy!_"[..6] == "testy!" && "testy!_"[7..] == [];
    assert "testy!"[..4] == "test" && "testy!"[5..] == "!";
  }

  /** unicode.rs:133-139: removals at the start, the end and the middle. */
  method Removals(str: UnicodeString) returns (ok: bool)
    requires str.Valid() && str.chars == "_testy!_"
    modifies str
    ensures ok && str.Valid() && str.chars == "test!"
  {
    RemovalSplices();
    str.Remove(0);
    str.Remove(6);
    str.Remove(4);
    if str.AsStr() != Encode("test!") || str.Length() != 5 {
      return false;
    }
    return true;
  }

  /** unicode.rs:141-146: remove the first code point until none is left. */
  method RemoveAll(str: UnicodeString) returns (ok: bool)
    requires str.Valid()
    modifies str
    ensures ok && str.Valid() && str.chars == []
  {
    while str.Length() > 0
      invariant str.Valid()
      decreases str.length
    {
      str.Remove(0);
    }
    if str.AsStr() != [] || str.Length() != 0 {
      return false;
    }
    return true;
  }

  /** unicode.rs:148-153: two-byte code points pushed, then one inserted in the middle. */
  method TwoByteInsert(str: UnicodeString) returns (ok: bool)
    requires str.Valid() && str.chars == []
    modifies str
    ensures ok && str.Valid() && str.chars == "åäö"
  {
    assert Width('å') == 2 && Width('ä') == 2 && Width('ö') == 2;
    assert ByteLen("åä") == 4 by {
      ByteLenAppend("å", "ä");
      ByteLenOne('å');
      ByteLenOne('ä');
      assert "åä" == "å" + "ä";
    }
    str.Push('å');
    str.Push('ö');
    assert str.chars == "åö" && str.indices == [0, 2];
    ghost var a := str.indices;
    str.Insert(1, 'ä');
    assert "åö"[..1] == "å" && "åö"[1..] == "ö";
    assert str.chars == "åäö";
    InsertShifts("åö", 1, 'ä', a, str.indices);
    assert str.indices == [0, 2, 4] by {
      ByteLenOne('å');
    }
    if str.AsStr() != Encode("åäö") || str.indices != [0, Width('å'), ByteLen("åä")] {
      return false;
    }
    return true;
  }

  /** unicode.rs:155-163: the inserted code point removed again, then everything drained. */
  method TwoByteRemove(str: UnicodeString) returns (ok: bool)
    requires str.Valid() && str.chars == "åäö"
    modifies str
    ensures ok && str.Valid() && str.chars == []
  {
    assert Width('å') == 2 && Width('ä') == 2 && Width('ö') == 2;
    str.Remove(1);
    assert str.chars == "åö";
    assert str.indices == [0, 2] by {
      ByteLenOne('å');
      assert "åö"[..1] == "å";
    }
    if str.AsStr() != Encode("åö") || str.indices != [0, Width('å')] {
      return false;
    }
    var drained := str.Drain(0, str.Length());
    assert "åö"[0..2] == "åö";
    assert str.chars == [];
    if drained != Encode("åö") || str.AsStr() != [] || str.indices != [] || str.Length() != 0 {
      return false;
    }
    return true;
  }

  /** unicode.rs:165-173: push a literal, then drain all but its first code point. */
  method PushStrAndDrain(str: UnicodeString) returns (ok: bool)
    requires str.Valid() && str.chars == []
    modifies str
    ensures ok
  {
    str.PushStr("asd");
    assert str.chars == "asd";
    if str.AsStr() != Encode("asd") || str.Length() != 3 {
      return false;
    }
    var drained := str.Drain(1, str.Length());
    assert "asd"[1..3] == "sd";
    assert str.chars == "a";
    assert str.chars[..0] == [];
    assert str.indices == [0];
    if drained != Encode("sd") || str.AsStr() != Encode("a") || str.indices != [0] || str.Length() != 1 {
      return false;
    }
    return true;
  }
}
