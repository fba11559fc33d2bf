/** What the temporary file of `ed` holds, in bytes: which lines are stored and how many fit. */
module EdLaws {
  import opened EdStore

  /** A line ends before its newline; what follows is not stored. */
  lemma {:induction false} StoredUpToNewline(line: seq<int>, rest: seq<int>)
    requires 0 !in line && 10 !in line
    ensures LineOf(line) == line && LineOf(line + [10] + rest) == line
  {
    hide EndOf;
    var whole := line + [10] + rest;
    assert whole[|line|] == 10 && forall k :: 0 <= k < |line| ==> whole[k] == line[k];
    assert forall k :: 0 <= k < |line| ==> line[k] in line;
    assert EndOf(whole) == |line| && whole[..|line|] == line;
    assert EndOf(line) == |line|;
  }

  function Puts(text: seq<int>, n: nat): seq<Request> { seq(n, _ => Put(text)) }

  lemma PutsStep(text: seq<int>, n: nat)
    requires 0 < n
    ensures Puts(text, n)[0] == Put(text) && Puts(text, n)[1..] == Puts(text, n - 1)
  {
  }

  lemma {:induction false} AllRefused(text: seq<int>, n: nat, stored: seq<seq<int>>, used: nat)
    requires 130560 <= 2 * used + |LineOf(text)|
    ensures Replay(Puts(text, n), stored, used) == seq(n, _ => Refused)
    decreases n
  {
    hide LineOf;
    if 0 < n {
      PutsStep(text, n);
      AllRefused(text, n - 1, stored, used);
    }
  }

  /** The units that a line takes: its bytes and a zero, rounded up to a multiple of four bytes. */
  function Room(line: seq<int>): nat { 2 * ((|line| + 4) / 4) }

  lemma RoomIsMonotone(u: nat, i: nat, j: nat)
    requires i <= j
    ensures i * u <= j * u
  {
  }

  lemma {:induction false} FirstOnes(text: seq<int>, n: nat, stored: seq<seq<int>>, used: nat, i: nat)
    requires i < n
    ensures var answers, line := Replay(Puts(text, n), stored, used), LineOf(text);
            |answers| == n && answers[i] == if 2 * (used + i * Room(line)) + |line| < 130560 then Accepted else Refused
    decreases n
  {
    hide LineOf;
    var line := LineOf(text);
    PutsStep(text, n);
    if 2 * used + |line| < 130560 {
      if 0 < i {
        FirstOnes(text, n - 1, stored + [line], used + Room(line), i - 1);
        assert used + Room(line) + (i - 1) * Room(line) == used + i * Room(line);
      } else {
        AnswerEach(Puts(text, n - 1), stored + [line], used + Room(line));
      }
    } else {
      AllRefused(text, n, stored, used);
      RoomIsMonotone(Room(line), 0, i);
    }
  }

  lemma {:induction false} AnswerEach(requests: seq<Request>, stored: seq<seq<int>>, used: nat)
    ensures |Replay(requests, stored, used)| == |requests|
    decreases |requests|
  {
    hide LineOf, Units;
    if requests != [] {
      if requests[0].Put? {
        var line := LineOf(requests[0].text);
        AnswerEach(requests[1..], stored + [line], used + Units(|line| + 1));
      }
      AnswerEach(requests[1..], stored, used);
    }
  }

  /**
   How many equal lines fit: the file has 255 blocks of 512 bytes, of which the first four bytes are not
   used, and a line is refused when its last byte does not fit.
   */
  lemma Capacity(line: seq<int>, n: nat, i: nat)
    requires 0 !in line && 10 !in line && i < n
    ensures var answers := Replay(Puts(line, n), [], 2);
            |answers| == n &&
            answers[i] == if 4 + i * (4 * ((|line| + 4) / 4)) + |line| < 255 * 512 then Accepted else Refused
  {
    hide EndOf, LineOf, Replay;
    StoredUpToNewline(line, []);
    FirstOnes(line, n, [], 2, i);
    var u := (|line| + 4) / 4;
    assert 2 * (2 + i * (2 * u)) == 4 + i * (4 * u);
  }
}
