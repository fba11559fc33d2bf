/**
 The `m` command of `ed`: a block of lines is moved by reversing three ranges of the array of
 line pointers in place.  Bit 0 of a pointer is a mark, which moving clears.
 */
module EdMove {
  import opened EdStore

  function AllUnmarked(s: seq<nat>): (r: seq<nat>)
    ensures |r| == |s| && forall k :: 0 <= k < |s| ==> r[k] == Unmarked(s[k])
  {
    seq(|s|, i requires 0 <= i < |s| => Unmarked(s[i]))
  }

  /** The lines with first..last taken out. */
  function Without(s: seq<nat>, first: nat, last: nat): seq<nat>
    requires first <= last < |s|
  {
    s[..first] + s[last + 1..]
  }

  /** The list with the lines first..last taken out and put back, unmarked, after the line that was at dest. */
  function Moved(s: seq<nat>, first: nat, last: nat, dest: nat): seq<nat>
    requires first <= last < |s| && dest < |s| && !(first <= dest <= last)
  {
    var rest := Without(s, first, last);
    var after := if dest < first then dest + 1 else dest + 1 - (last + 1 - first);
    rest[..after] + AllUnmarked(s[first..last + 1]) + rest[after..]
  }

  /** The list with the marks of first..last cleared. */
  ghost function Cleared(s: seq<nat>, first: nat, last: nat): seq<nat>
    requires first <= last < |s|
  {
    s[..first] + AllUnmarked(s[first..last + 1]) + s[last + 1..]
  }

  /** The list with the ranges a..b and b..c exchanged. */
  ghost function Exchanged(s: seq<nat>, a: nat, b: nat, c: nat): seq<nat>
    requires a <= b <= c <= |s|
  {
    s[..a] + s[b..c] + s[a..b] + s[c..]
  }

  lemma MovedUp(s: seq<nat>, first: nat, last: nat, dest: nat)
    requires dest < first <= last < |s|
    ensures Moved(s, first, last, dest)
            == s[..dest + 1] + AllUnmarked(s[first..last + 1]) + s[dest + 1..first] + s[last + 1..]
  {
    var rest, b := Without(s, first, last), AllUnmarked(s[first..last + 1]);
    hide AllUnmarked;
    assert rest[..dest + 1] == s[..dest + 1];
    assert rest[dest + 1..] == s[dest + 1..first] + s[last + 1..];
    Regroup(s[..dest + 1] + b, s[dest + 1..first], s[last + 1..]);
  }

  lemma MovedDown(s: seq<nat>, first: nat, last: nat, dest: nat)
    requires first <= last < dest < |s|
    ensures Moved(s, first, last, dest)
            == s[..first] + s[last + 1..dest + 1] + AllUnmarked(s[first..last + 1]) + s[dest + 1..]
  {
    var rest := Without(s, first, last);
    hide AllUnmarked;
    var after := first + dest - last;
    assert rest[..after] == s[..first] + s[last + 1..dest + 1];
    assert rest[after..] == s[dest + 1..];
  }

  lemma Regroup(a: seq<nat>, b: seq<nat>, c: seq<nat>)
    ensures a + (b + c) == a + b + c
  {
  }

  /** Nothing is lost and nothing is duplicated. */
  lemma MoveConserves(s: seq<nat>, first: nat, last: nat, dest: nat)
    requires first <= last < |s| && dest < |s| && !(first <= dest <= last)
    ensures multiset(Moved(s, first, last, dest))
            == multiset(s[..first]) + multiset(AllUnmarked(s[first..last + 1])) + multiset(s[last + 1..])
  {
    hide Moved, AllUnmarked;
    if dest < first {
      MovedUp(s, first, last, dest);
      assert s[..first] == s[..dest + 1] + s[dest + 1..first];
    } else {
      MovedDown(s, first, last, dest);
      assert s[last + 1..] == s[last + 1..dest + 1] + s[dest + 1..];
    }
  }

  /** The list with the range a..b reversed. */
  ghost function Turned(s: seq<nat>, a: nat, b: nat): (r: seq<nat>)
    requires a <= b <= |s|
  {
    seq(|s|, k requires 0 <= k < |s| => if a <= k < b then s[a + b - 1 - k] else s[k])
  }

  /** Reversing two neighbouring ranges and then both together exchanges them. */
  lemma TurnedThrice(s: seq<nat>, a: nat, b: nat, c: nat)
    requires a <= b <= c <= |s|
    ensures Turned(Turned(Turned(s, a, b), b, c), a, c) == Exchanged(s, a, b, c)
  {
    var s1 := Turned(s, a, b);
    var s2 := Turned(s1, b, c);
    var s3, t := Turned(s2, a, c), s[..a] + s[b..c] + s[a..b] + s[c..];
    forall k | 0 <= k < |s|
      ensures s3[k] == t[k]
    {
      if a <= k < a + c - b {
        assert s3[k] == s2[a + c - 1 - k] == s1[b - a + k] == s[b - a + k];
      } else if a + c - b <= k < c {
        assert s3[k] == s2[a + c - 1 - k] == s1[a + c - 1 - k] == s[k - (c - b)];
      }
    }
  }

  /** `reverse`: the range a1..a2 in place, from both ends. */
  method Reverse(a: array<nat>, first: nat, last: nat)
    requires first <= last <= a.Length && 0 < last
    modifies a
    ensures a[..] == Turned(old(a[..]), first, last)
  {
    var a1, a2 := first, last;
    while true
      invariant first <= a1 <= last && first <= a2 <= last && 0 < a2 && a1 - first == last - a2 && a1 <= a2 + 1
      invariant forall k :: first <= k < a1 ==> a[k] == old(a[first + last - 1 - k])
      invariant forall k :: a2 <= k < last ==> a[k] == old(a[first + last - 1 - k])
      invariant forall k :: 0 <= k < a.Length && (k < first || last <= k || a1 <= k < a2) ==> a[k] == old(a[k])
      decreases a2
    {
      a2 := a2 - 1;
      var t := a[a2];
      if a2 <= a1 {
        break;
      }
      a[a2] := a[a1];
      a[a1] := t;
      a1 := a1 + 1;
    }
  }

  /** The buffer of line pointers, the lines 1..dol, with the current line. */
  class Buffer {
    const line: array<nat>
    var dol: nat
    var dot: nat
    var fchange: bool

    ghost predicate Valid()
      reads this
    {
      dol < line.Length && dot <= dol
    }

    ghost function Lines(): seq<nat>
      requires Valid()
      reads this, line
    {
      line[..dol + 1]
    }

    /** Clears the marks of the lines first..last. */
    method Unmark(first: nat, last: nat)
      requires first <= last < line.Length
      modifies line
      ensures line[..] == Cleared(old(line[..]), first, last)
    {
      var a := first;
      while a <= last
        invariant first <= a <= last + 1
        invariant forall k :: first <= k < a ==> line[k] == Unmarked(old(line[k]))
        invariant forall k :: 0 <= k < line.Length && (k < first || a <= k) ==> line[k] == old(line[k])
      {
        line[a] := Unmarked(line[a]);
        a := a + 1;
      }
    }

    /** Two neighbouring ranges change places, by three reversals. */
    method Exchange(a: nat, b: nat, c: nat)
      requires a < b < c <= line.Length
      modifies line
      ensures line[..] == Exchanged(old(line[..]), a, b, c)
    {
      hide Turned, Exchanged;
      TurnedThrice(line[..], a, b, c);
      Reverse(line, a, b);
      Reverse(line, b, c);
      Reverse(line, a, c);
    }

    /**
     `move` without copying: the lines addr1..addr2 go after line adt.  The current line is
     then the last line moved.
     */
    method Move(addr1: nat, addr2: nat, adt: nat) returns (ok: bool)
      requires Valid() && adt <= dol
      modifies this`dot, this`fchange, line
      ensures Valid() && |Lines()| == |old(Lines())|
      ensures ok <==> 0 < addr1 <= addr2 <= dol && !(addr1 <= adt <= addr2)
      ensures ok ==> Lines() == Moved(old(Lines()), addr1, addr2, adt)
      ensures ok ==> addr2 - addr1 <= dot &&
                     Lines()[dot - (addr2 - addr1)..dot + 1] == AllUnmarked(old(Lines())[addr1..addr2 + 1])
      ensures ok ==> fchange == (old(fchange) || adt + 1 != addr1)
      ensures !ok ==> dot == old(dot) && fchange == old(fchange)
      ensures !ok && !(0 < addr1 <= adt <= addr2 <= dol) ==> Lines() == old(Lines())
      ensures 0 < addr1 <= adt <= addr2 <= dol ==> Lines() == Cleared(old(Lines()), addr1, addr2)
    {
      hide AllUnmarked, Moved, Cleared, Exchanged;
      if addr1 > addr2 || addr1 == 0 || addr2 > dol {
        return false;
      }
      ghost var s, all := Lines(), line[..];
      Unmark(addr1, addr2);
      ghost var m := line[..];
      ClearedPrefix(all, dol, addr1, addr2);
      var ad1, ad2 := addr1, addr2 + 1;
      if adt < ad1 {
        dot := adt + (ad2 - ad1);
        Landing(s, addr1, addr2, adt);
        if adt + 1 == ad1 {
          StaysPut(s, addr1, addr2);
          return true;
        }
        Exchange(adt + 1, ad1, ad2);
        UpResult(s, m, addr1, addr2, adt);
      } else if adt >= ad2 {
        dot := adt;
        Landing(s, addr1, addr2, adt);
        Exchange(ad1, ad2, adt + 1);
        DownResult(s, m, addr1, addr2, adt);
      } else {
        return false;
      }
      ok := true;
      fchange := true;
    }
  }

  lemma ClearedPrefix(all: seq<nat>, dol: nat, first: nat, last: nat)
    requires first <= last <= dol < |all|
    ensures |Cleared(all, first, last)| == |all| &&
            Cleared(all, first, last)[..dol + 1] == Cleared(all[..dol + 1], first, last)
  {
    var s := all[..dol + 1];
    assert s[first..last + 1] == all[first..last + 1];
  }

  lemma StaysPut(s: seq<nat>, first: nat, last: nat)
    requires 0 < first <= last < |s|
    ensures Moved(s, first, last, first - 1) == Cleared(s, first, last)
  {
    MovedUp(s, first, last, first - 1);
    hide AllUnmarked, Moved;
  }

  /** Where the block lands. */
  lemma Landing(s: seq<nat>, first: nat, last: nat, dest: nat)
    requires first <= last < |s| && dest < |s| && !(first <= dest <= last)
    ensures var r, dot := Moved(s, first, last, dest), if dest < first then dest + (last + 1 - first) else dest;
            |r| == |s| && last - first <= dot < |s| &&
            r[dot - (last - first)..dot + 1] == AllUnmarked(s[first..last + 1])
  {
    hide Moved;
    if dest < first {
      MovedUp(s, first, last, dest);
    } else {
      MovedDown(s, first, last, dest);
    }
  }

  lemma ExchangedPrefix(m: seq<nat>, n: nat, a: nat, b: nat, c: nat)
    requires a <= b <= c <= n <= |m|
    ensures Exchanged(m, a, b, c)[..n] == Exchanged(m[..n], a, b, c)
  {
    var t := m[..n];
    assert t[..a] == m[..a] && t[a..b] == m[a..b] && t[b..c] == m[b..c] && t[c..] == m[c..n];
  }

  lemma UpResult(s: seq<nat>, m: seq<nat>, first: nat, last: nat, dest: nat)
    requires dest < first <= last < |s| <= |m| && m[..|s|] == Cleared(s, first, last)
    ensures Exchanged(m, dest + 1, first, last + 1)[..|s|] == Moved(s, first, last, dest)
  {
    hide Moved, Cleared, AllUnmarked;
    ExchangedPrefix(m, |s|, dest + 1, first, last + 1);
    MovedUp(s, first, last, dest);
    ClearedParts(s, first, last, dest + 1);
  }

  lemma DownResult(s: seq<nat>, m: seq<nat>, first: nat, last: nat, dest: nat)
    requires first <= last < dest < |s| <= |m| && m[..|s|] == Cleared(s, first, last)
    ensures Exchanged(m, first, last + 1, dest + 1)[..|s|] == Moved(s, first, last, dest)
  {
    hide Moved, Cleared, AllUnmarked;
    ExchangedPrefix(m, |s|, first, last + 1, dest + 1);
    MovedDown(s, first, last, dest);
    ClearedParts(s, first, last, dest + 1);
  }

  lemma ClearedParts(s: seq<nat>, first: nat, last: nat, cut: nat)
    requires first <= last < |s| && cut <= |s|
    ensures var t := Cleared(s, first, last);
            |t| == |s| && t[..first] == s[..first] && t[first..last + 1] == AllUnmarked(s[first..last + 1]) &&
            t[last + 1..] == s[last + 1..] &&
            (cut <= first ==> t[..cut] == s[..cut] && t[cut..first] == s[cut..first]) &&
            (last + 1 <= cut ==> t[last + 1..cut] == s[last + 1..cut] && t[cut..] == s[cut..])
  {
    var b := AllUnmarked(s[first..last + 1]);
    hide AllUnmarked;
    var t := s[..first] + b + s[last + 1..];
    if last + 1 <= cut {
      assert t[last + 1..cut] == s[last + 1..cut];
    }
  }
}
