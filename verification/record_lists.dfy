/**
 * `resource_VR_cleanDup`: removing repeated record numbers from a list
 * before it is sent, keeping each number where it first appears.
 */
module RecordLists {
  import opened Protocol

  /** No value occurs twice. */
  predicate NoDup(s: seq<byte>)
  {
    forall i, j :: 0 <= i < j < |s| ==> s[i] != s[j]
  }

  /** The position of the first occurrence of x in s. */
  function FirstIndex(s: seq<byte>, x: byte): (k: nat)
    requires x in s
    ensures k < |s| && s[k] == x && x !in s[..k]
  {
    if x in s[..|s| - 1] then FirstIndex(s[..|s| - 1], x) else |s| - 1
  }

  /**
   * The list with every value after its first occurrence dropped, built
   * as the driver builds it: one input value at a time, appended when it
   * is not already in the output.
   */
  function Dedup(s: seq<byte>): (r: seq<byte>)
    ensures NoDup(r)
    ensures forall x :: x in r <==> x in s
    ensures |r| <= |s| && (|s| > 0 ==> |r| > 0)
  {
    if s == [] then []
    else
      var d := Dedup(s[..|s| - 1]);
      assert s[|s| - 1] in s;
      assert forall x :: x in s <==> x in s[..|s| - 1] || x == s[|s| - 1] by {
        assert s == s[..|s| - 1] + [s[|s| - 1]];
      }
      if s[|s| - 1] in d then d else d + [s[|s| - 1]]
  }

  /** Dedup of a longer prefix extends dedup of a shorter one. */
  lemma {:induction false} DedupPrefix(s: seq<byte>, i: nat, j: nat)
    requires i <= j <= |s|
    ensures Dedup(s[..i]) <= Dedup(s[..j])
    decreases j - i
  {
    if i < j {
      DedupPrefix(s, i, j - 1);
      assert s[..j][..j - 1] == s[..j - 1];
    }
  }

  /** The output lists the values in the order of their first occurrence in the input. */
  lemma {:induction false} DedupFirstOccurrenceOrder(s: seq<byte>)
    ensures forall m, n :: 0 <= m < n < |Dedup(s)| ==>
              FirstIndex(s, Dedup(s)[m]) < FirstIndex(s, Dedup(s)[n])
  {
    if s != [] {
      var p := s[..|s| - 1];
      var x := s[|s| - 1];
      DedupFirstOccurrenceOrder(p);
      var d := Dedup(p);
      forall y | y in p
        ensures FirstIndex(s, y) == FirstIndex(p, y)
      {
        assert s[..|s| - 1] == p;
      }
      assert x in s;
      assert forall y :: y in p ==> y in s by { assert s == p + [x]; }
      if x !in d {
        forall m | 0 <= m < |d|
          ensures FirstIndex(s, d[m]) < FirstIndex(s, x)
        {
          assert d[m] in p;
          assert x !in p;
          assert s[..|s| - 1] == p;
        }
      }
    }
  }

  /** A list without repetitions is its own dedup. */
  lemma {:induction false} DedupOfNoDup(t: seq<byte>)
    requires NoDup(t)
    ensures Dedup(t) == t
  {
    if t != [] {
      var p := t[..|t| - 1];
      assert NoDup(p);
      DedupOfNoDup(p);
      assert t[|t| - 1] !in p;
      assert t == p + [t[|t| - 1]];
    }
  }

  /** Dedup applied to its own output changes nothing. */
  lemma DedupIdempotent(s: seq<byte>)
    ensures Dedup(Dedup(s)) == Dedup(s)
  {
    DedupOfNoDup(Dedup(s));
  }

  /** Appending a value appends it to the dedup exactly when it is new. */
  lemma DedupSnoc(s: seq<byte>, x: byte)
    ensures Dedup(s + [x]) == if x in s then Dedup(s) else Dedup(s) + [x]
  {
    assert (s + [x])[..|s|] == s;
  }

  /** For distinct a, b, c, the list a, b, a, c deduplicates to a, b, c. */
  lemma DedupExample(a: byte, b: byte, c: byte)
    requires a != b && b != c && a != c
    ensures Dedup([a, b, a, c]) == [a, b, c]
  {
    var s2: seq<byte> := [a, b];
    assert Dedup(s2) == s2 by {
      DedupOfNoDup(s2);
    }
    DedupSnoc(s2, a);
    assert s2 + [a] == [a, b, a];
    DedupSnoc([a, b, a], c);
    assert [a, b, a] + [c] == [a, b, a, c];
  }

  /**
   * `resource_VR_cleanDup(des, buf, len)`: -1 when len < 1, otherwise the
   * first len values of buf deduplicated into des with their count.
   */
  method CleanDup(des: array<byte>, buf: seq<byte>, len: int) returns (k: int)
    requires len <= |buf|
    requires len >= 1 ==> |Dedup(buf[..len])| <= des.Length
    modifies des
    ensures len < 1 ==> k == -1 && des[..] == old(des[..])
    ensures len >= 1 ==> 1 <= k <= len && k <= des.Length && des[..k] == Dedup(buf[..len]) && des[k..] == old(des[k..])
  {
    if len < 1 {
      return -1;
    }
    k := 0;
    var i := 0;
    while i < len
      invariant 0 <= i <= len && 0 <= k <= i && k <= des.Length
      invariant des[..k] == Dedup(buf[..i]) && des[k..] == old(des[k..])
    {
      var j := 0;
      while j < k
        invariant 0 <= j <= k
        invariant forall m :: 0 <= m < j ==> des[m] != buf[i]
      {
        if buf[i] == des[j] {
          break;
        }
        j := j + 1;
      }
      assert buf[..i + 1][..i] == buf[..i];
      assert buf[..i + 1][i] == buf[i];
      if j == k {
        assert buf[i] !in des[..k];
        DedupPrefix(buf, i + 1, len);
        des[k] := buf[i];
        k := k + 1;
      } else {
        assert des[..k][j] == buf[i];
      }
      i := i + 1;
    }
    assert buf[..len] == buf[..i];
  }
}
