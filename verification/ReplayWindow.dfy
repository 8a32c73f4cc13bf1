/** The receiver's 64-entry replay window (`r2n-crypto`), as a release build executes it. */
module ReplayWindow {
  import opened Bytes
  import opened Finite

  /** A 64-bit word as its bits, least significant first. */
  type Word64 = b: seq<bool> | |b| == 64 witness seq(64, _ => false)

  function Zero(): (b: Word64) {
    seq(64, _ => false)
  }

  /** `b << amount`: only the low six bits of the amount count, and high bits fall off. */
  function ShiftLeft(b: Word64, amount: nat): (r: Word64)
    ensures forall k :: 0 <= k < 64 ==> r[k] == (k >= amount % 64 && b[k - amount % 64])
  {
    seq(64, k requires 0 <= k < 64 => k >= amount % 64 && b[k - amount % 64])
  }

  datatype Window = Window(last: u64, bitmap: Word64)

  function Fresh(): (w: Window) {
    Window(0, Zero())
  }

  /** `check_replay_window` lets the nonce through. */
  predicate Passes(w: Window, nonce: u64) {
    nonce > w.last || (w.last - nonce < 64 && !w.bitmap[w.last - nonce])
  }

  /** `advance_replay_window`, called only for a nonce that passed. */
  function Advance(w: Window, nonce: u64): (r: Window)
    requires Passes(w, nonce)
  {
    if nonce > w.last then
      var jump := nonce - w.last;
      var shift := if jump < 64 then jump else 64;
      Window(nonce, ShiftLeft(w.bitmap, shift)[0 := true])
    else
      w.(bitmap := w.bitmap[w.last - nonce := true])
  }

  // ---------- Runs ----------

  /** One call of `decrypt_in_place`: the nonce, and whether the AEAD tag would verify. */
  datatype Attempt = Attempt(nonce: u64, authentic: bool)

  datatype State = State(window: Window, accepted: seq<u64>)

  function Decrypt(s: State, a: Attempt): (r: State) {
    if Passes(s.window, a.nonce) && a.authentic
    then State(Advance(s.window, a.nonce), s.accepted + [a.nonce])
    else s
  }

  function Run(attempts: seq<Attempt>): (s: State) {
    if attempts == [] then State(Fresh(), [])
    else Decrypt(Run(attempts[..|attempts| - 1]), attempts[|attempts| - 1])
  }

  /** Every accepted nonce is at most the last one and, within 63 of it, has its bit set. */
  ghost predicate Remembers(s: State) {
    forall n :: n in s.accepted ==>
      n <= s.window.last && (s.window.last - n < 64 ==> s.window.bitmap[s.window.last - n])
  }

  lemma DecryptKeeps(s: State, a: Attempt)
    requires Remembers(s) && Distinct(s.accepted)
    ensures var r := Decrypt(s, a); Remembers(r) && Distinct(r.accepted)
  {
    assert Passes(s.window, a.nonce) ==> a.nonce !in s.accepted;
  }

  /** At most once: whatever is attempted, with whatever gaps, no nonce is accepted twice. */
  lemma {:induction false} AtMostOnce(attempts: seq<Attempt>)
    ensures Distinct(Run(attempts).accepted) && Remembers(Run(attempts))
  {
    if attempts != [] {
      AtMostOnce(attempts[..|attempts| - 1]);
      DecryptKeeps(Run(attempts[..|attempts| - 1]), attempts[|attempts| - 1]);
    }
  }

  // ---------- Exactness ----------

  /** The window stands for exactly the accepted nonces among the last 64. */
  ghost predicate Exact(s: State) {
    forall d :: 0 <= d < 64 ==> (s.window.bitmap[d] <==> s.window.last - d in s.accepted)
  }

  /** In an exact state a nonce is refused only as a duplicate or as 64 or more behind. */
  lemma ExactRefusal(s: State, nonce: u64)
    requires Remembers(s) && Exact(s)
    ensures !Passes(s.window, nonce) <==> nonce in s.accepted || nonce + 64 <= s.window.last
  {
    if nonce <= s.window.last && s.window.last - nonce < 64 {
      var d := s.window.last - nonce;
      assert s.window.last - d == nonce;
    }
  }

  /**
   * The attempts that keep an exact window exact: those not accepted, those that do not jump
   * forward by 64 or more, and longer jumps from a window with no bit above the lowest.
   */
  predicate KeepsExact(w: Window, a: Attempt) {
    || !Passes(w, a.nonce) || !a.authentic
    || a.nonce < w.last + 64
    || forall d :: 1 <= d < 64 ==> !w.bitmap[d]
  }

  lemma ExactStep(s: State, a: Attempt)
    requires Remembers(s) && Exact(s)
    ensures Exact(Decrypt(s, a)) <==> KeepsExact(s.window, a)
  {
    if Passes(s.window, a.nonce) && a.authentic {
      if a.nonce < s.window.last + 64 {
        forall d | 0 <= d < 64 { ExactShortJump(s, a, d); }
      } else {
        forall d | 0 <= d < 64 { LongJump(s, a, d); }
      }
    }
  }

  lemma LongJump(s: State, a: Attempt, d: nat)
    requires Remembers(s) && d < 64
    requires Passes(s.window, a.nonce) && a.authentic && a.nonce >= s.window.last + 64
    ensures var r := Decrypt(s, a);
            && (r.window.bitmap[d] <==> d == 0 || s.window.bitmap[d])
            && (r.window.last - d in r.accepted <==> d == 0)
  {
    assert ShiftLeft(s.window.bitmap, 64)[d] == s.window.bitmap[d];
    assert a.nonce - d !in s.accepted;
  }

  lemma ExactShortJump(s: State, a: Attempt, d: nat)
    requires Remembers(s) && Exact(s) && d < 64
    requires Passes(s.window, a.nonce) && a.authentic && a.nonce < s.window.last + 64
    ensures var r := Decrypt(s, a);
            r.window.bitmap[d] <==> r.window.last - d in r.accepted
  {
    var w := s.window;
    var jump := a.nonce - w.last;
    if jump > 0 {
      assert jump % 64 == jump;
      assert w.last + jump - d in s.accepted + [a.nonce] <==> d == 0 || w.last + jump - d in s.accepted;
      if d >= jump {
        assert w.bitmap[d - jump] <==> w.last - (d - jump) in s.accepted;
      }
    }
  }

  /** Exact after every prefix of the run. */
  ghost predicate AlwaysExact(attempts: seq<Attempt>) {
    Exact(Run(attempts)) && (attempts != [] ==> AlwaysExact(attempts[..|attempts| - 1]))
  }

  /** Every attempt of the run keeps exactness when it is made. */
  ghost predicate AlwaysKeepsExact(attempts: seq<Attempt>) {
    attempts != [] ==>
      var before := attempts[..|attempts| - 1];
      AlwaysKeepsExact(before) && KeepsExact(Run(before).window, attempts[|attempts| - 1])
  }

  /** A run is exact at every point precisely when each of its attempts keeps exactness. */
  lemma {:induction false} ExactRuns(attempts: seq<Attempt>)
    ensures AlwaysExact(attempts) <==> AlwaysKeepsExact(attempts)
  {
    if attempts != [] {
      var before := attempts[..|attempts| - 1];
      ExactRuns(before);
      AtMostOnce(before);
      if Exact(Run(before)) {
        ExactStep(Run(before), attempts[|attempts| - 1]);
      }
    }
  }

  /** So after such a run a nonce is refused exactly as a duplicate or as 64 or more behind. */
  lemma RefusalInRuns(attempts: seq<Attempt>, nonce: u64)
    requires AlwaysKeepsExact(attempts)
    ensures var s := Run(attempts);
            !Passes(s.window, nonce) <==> nonce in s.accepted || nonce + 64 <= s.window.last
  {
    ExactRuns(attempts);
    AtMostOnce(attempts);
    ExactRefusal(Run(attempts), nonce);
  }

  /** A long jump can leave stale bits: 99 was never accepted and is one behind, yet is refused. */
  lemma StaleBitsRefuse()
    ensures var s := Run([Attempt(1, true), Attempt(2, true), Attempt(100, true)]);
            && 99 !in s.accepted && s.window.last == 100 && !Passes(s.window, 99)
            && !KeepsExact(Run([Attempt(1, true), Attempt(2, true)]).window, Attempt(100, true))
  {
    var a := [Attempt(1, true), Attempt(2, true), Attempt(100, true)];
    assert a[..2] == [a[0], a[1]] && a[..2][..1] == [a[0]] && a[..1][..0] == [];
    assert Run([a[0]]) == Decrypt(Run([]), a[0]) by { assert [a[0]][..0] == []; }
    var s1 := Run([a[0]]);
    assert s1.window.bitmap[0];
    var s2 := Run([a[0], a[1]]);
    assert s2 == Decrypt(s1, a[1]) by { assert [a[0], a[1]][..1] == [a[0]]; }
    assert s2.window.last == 2 && s2.window.bitmap[1];
    assert Run(a) == Decrypt(s2, a[2]);
  }

  // ---------- The cipher's window, updated in place ----------

  class Cipher {
    var lastNonce: u64
    var bitmap: Word64

    function View(): (w: Window)
      reads this
    {
      Window(lastNonce, bitmap)
    }

    constructor ()
      ensures View() == Fresh()
    {
      lastNonce, bitmap := 0, Zero();
    }

    method CheckReplayWindow(nonce: u64) returns (ok: bool)
      ensures ok == Passes(View(), nonce)
    {
      if nonce <= lastNonce {
        var diff := lastNonce - nonce;
        if diff >= 64 || bitmap[diff] {
          return false;
        }
      }
      return true;
    }

    method AdvanceReplayWindow(nonce: u64)
      requires Passes(View(), nonce)
      modifies this
      ensures View() == Advance(old(View()), nonce)
    {
      if nonce > lastNonce {
        var shift := if nonce - lastNonce < 64 then nonce - lastNonce else 64;
        bitmap := ShiftLeft(bitmap, shift)[0 := true];
        lastNonce := nonce;
      } else {
        bitmap := bitmap[lastNonce - nonce := true];
      }
    }

    /** `decrypt_in_place`: check, then the AEAD, then advance. */
    method DecryptInPlace(a: Attempt, ghost accepted: seq<u64>) returns (ok: bool)
      modifies this
      ensures var after := Decrypt(State(old(View()), accepted), a);
              View() == after.window && after.accepted == accepted + (if ok then [a.nonce] else [])
    {
      ok := CheckReplayWindow(a.nonce);
      if ok {
        ok := a.authentic;
        if ok {
          AdvanceReplayWindow(a.nonce);
        }
      }
    }
  }
}
