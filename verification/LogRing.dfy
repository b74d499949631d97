// The log ring of main/debug_obs.c: bytes appended as lines are logged, and the
// tail handed out over HTTP.

module LogRing {

  const LOG_RING_SIZE: nat := 32 * 1024
  const LINE_MAX: nat := 255
  const DEFAULT_LINES: nat := 100

  /** The last n elements, or all of them. */
  function LastOf(s: string, n: nat): (r: string)
    ensures |r| == if |s| < n then |s| else n
  {
    if |s| < n then s else s[|s| - n..]
  }

  function Newlines(s: string): (n: nat)
    ensures n <= |s|
  {
    if s == [] then 0 else (if s[0] == '\n' then 1 else 0) + Newlines(s[1..])
  }

  /** The longest suffix of s with at most n newlines. */
  ghost predicate IsTail(r: string, s: string, n: nat) {
    && |r| <= |s| && r == s[|s| - |r|..]
    && Newlines(r) <= n
    && forall i :: 0 <= i < |s| - |r| ==> Newlines(s[i..]) > n
  }

  lemma TailIsUnique(a: string, b: string, s: string, n: nat)
    requires IsTail(a, s, n) && IsTail(b, s, n)
    ensures a == b
  {
  }

  lemma NewlinesGrow(s: string, i: nat)
    requires i < |s|
    ensures Newlines(s[i..]) == (if s[i] == '\n' then 1 else 0) + Newlines(s[i + 1..])
  {
    assert s[i..][1..] == s[i + 1..];
  }

  lemma {:induction false} LongerHasMore(s: string, i: nat, j: nat)
    requires i <= j <= |s|
    ensures Newlines(s[i..]) >= Newlines(s[j..])
    decreases j - i
  {
    if i < j {
      NewlinesGrow(s, i);
      LongerHasMore(s, i + 1, j);
    }
  }

  /** Where the j-th byte ever appended goes. */
  function Place(j: nat): (p: nat)
    ensures p < LOG_RING_SIZE
  {
    j % LOG_RING_SIZE
  }

  class Ring {
    const log: array<char>
    var head: nat
    var wrapped: bool
    ghost var written: string   // every byte ever appended

    /** Byte j of all that was written sits at j modulo the size, for the last of them. */
    ghost predicate Valid()
      reads this, log
    {
      && log.Length == LOG_RING_SIZE
      && head == Place(|written|)
      && wrapped == (|written| >= LOG_RING_SIZE)
      && forall j :: 0 <= j < |written| && |written| - LOG_RING_SIZE <= j ==> log[Place(j)] == written[j]
    }

    constructor ()
      ensures Valid() && fresh(log) && written == []
    {
      log := new char[LOG_RING_SIZE];
      head, wrapped, written := 0, false, [];
    }

    /** log_hook_vprintf with the text vsnprintf made of the call. */
    method Append(text: string)
      requires Valid()
      modifies this, log
      ensures Valid() && written == old(written) + if |text| <= 255 then text else text[..255]
    {
      var n := |text|;
      if n > LINE_MAX { n := LINE_MAX; }
      for i := 0 to n
        invariant Valid() && written == old(written) + text[..i]
      {
        PutByte(text[i]);
        assert text[..i + 1] == text[..i] + [text[i]];
      }
      assert |text| <= LINE_MAX ==> text[..n] == text;
    }

    method PutByte(c: char)
      requires Valid()
      modifies this, log
      ensures Valid() && written == old(written) + [c]
    {
      NextPlace(|written|);
      hide Place;
      log[head] := c;
      head := (head + 1) % LOG_RING_SIZE;
      if head == 0 { wrapped := true; }
      written := written + [c];
    }

    /** The ring unrolled: the last 32 KB in the order they came. */
    method Linear() returns (linear: array<char>)
      requires Valid()
      ensures fresh(linear) && linear[..] == LastOf(written, 32768)
    {
      hide Place;
      var linearLen := if wrapped then LOG_RING_SIZE else head;
      linear := new char[linearLen];
      if wrapped {
        var tailLen := LOG_RING_SIZE - head;
        forall i | 0 <= i < tailLen { linear[i] := log[head + i]; }
        forall i | 0 <= i < head { linear[tailLen + i] := log[i]; }
      } else {
        forall i | 0 <= i < head { linear[i] := log[i]; }
      }
      FirstLap(|written|);
      forall i | 0 <= i < linearLen ensures linear[i] == LastOf(written, LOG_RING_SIZE)[i] {
        FirstLap(i);
        if wrapped { Unrolled(|written|, i); }
      }
    }

    /** tab5_debug_obs_log_tail. */
    method LogTail(lines: int) returns (out: string)
      requires Valid()
      ensures IsTail(out, LastOf(written, 32768), if lines <= 0 then 100 else lines)
    {
      var n := if lines <= 0 then DEFAULT_LINES else lines;
      var linear := Linear();
      ghost var s := linear[..];
      var start := linear.Length;
      var linesSeen := 0;
      while start > 0 && linesSeen <= n
        invariant 0 <= start <= |s| == linear.Length && s == linear[..]
        invariant linesSeen == Newlines(s[start..]) <= n
      {
        start := start - 1;
        NewlinesGrow(s, start);
        if linear[start] == '\n' {
          linesSeen := linesSeen + 1;
          if linesSeen > n {
            start := start + 1;
            break;
          }
        }
      }
      if start > 0 {
        NewlinesGrow(s, start - 1);
        forall i | 0 <= i < start ensures Newlines(s[i..]) > n {
          LongerHasMore(s, i, start - 1);
        }
      }
      out := linear[start..];
    }
  }

  // ------------------------------------------------------------------ ring arithmetic

  lemma NextPlace(n: nat)
    ensures (Place(n) + 1) % LOG_RING_SIZE == Place(n + 1)
    ensures Place(n + 1) == 0 ==> n + 1 >= LOG_RING_SIZE
    ensures Place(n + 1) != 0 ==> n + 1 != LOG_RING_SIZE
    ensures forall j: nat :: n - LOG_RING_SIZE < j < n ==> Place(j) != Place(n)
  {
  }

  lemma FirstLap(n: nat)
    ensures n < LOG_RING_SIZE ==> Place(n) == n
  {
  }

  /** Where the i-th of the last bytes sits when n have been written. */
  lemma Unrolled(n: nat, i: nat)
    requires n >= LOG_RING_SIZE && i < LOG_RING_SIZE
    ensures Place(n - LOG_RING_SIZE + i) == if i < LOG_RING_SIZE - Place(n) then Place(n) + i else i - (LOG_RING_SIZE - Place(n))
  {
  }
}
