/**
 * The messages a room keeps, and its bounded history: at most MAX_HISTORY
 * entries, oldest dropped first (`push` then `shift`).
 */
module History {

  const MAX_HISTORY: nat := 100

  datatype MediaKind = Image | Video | Audio

  /**
   * A stored chat message. `timestamp` is the clock reading taken when the
   * message was built; the clock is a parameter of the model.
   */
  datatype Message =
    | Text(author: string, body: string, room: string, timestamp: int)
    | Media(kind: MediaKind, author: string, fileData: string, fileName: string, room: string, timestamp: int)

  /** `s.slice(-n)` for n > 0: the last `n` elements, or all of `s` when it is shorter. */
  function LastN<T>(s: seq<T>, n: nat): seq<T> {
    if |s| <= n then s else s[|s| - n..]
  }

  /**
   * `history.push(m); if (history.length > MAX_HISTORY) history.shift();`
   * On a history within the bound, the result is the most recent
   * MAX_HISTORY entries of the old history followed by `m`.
   */
  function Append<T>(h: seq<T>, m: T): (r: seq<T>)
    ensures |r| > 0 && r[|r| - 1] == m
    ensures |h| <= MAX_HISTORY ==> |r| <= MAX_HISTORY && r == LastN(h + [m], MAX_HISTORY)
  {
    var pushed := h + [m];
    if |pushed| > MAX_HISTORY then pushed[1..] else pushed
  }

  /** The history after a run of appends, in arrival order. */
  function AppendAll<T>(h: seq<T>, ms: seq<T>): seq<T>
    decreases |ms|
  {
    if ms == [] then h else AppendAll(Append(h, ms[0]), ms[1..])
  }

  /** Taking the last `n` of a sequence first does not change the last `n` after more are added. */
  lemma LastNAbsorbs<T>(s: seq<T>, t: seq<T>, n: nat)
    ensures LastN(LastN(s, n) + t, n) == LastN(s + t, n)
  {
    if |s| > n {
      var u := s[|s| - n..];
      if t != [] {
        assert LastN(u + t, n) == (u + t)[|t|..];
        assert LastN(s + t, n) == (s + t)[|s| + |t| - n..];
        forall j | |t| <= j < |t| + n ensures (u + t)[j] == (s + t)[|s| - n + j] {
          if j < n {
            assert (u + t)[j] == s[|s| - n + j];
          }
        }
      }
    }
  }

  /**
   * Whatever the number of messages appended, the history is the last
   * MAX_HISTORY of everything received, in arrival order.
   */
  lemma {:induction false} AppendAllKeepsLatest<T>(h: seq<T>, ms: seq<T>)
    requires |h| <= MAX_HISTORY
    ensures AppendAll(h, ms) == LastN(h + ms, MAX_HISTORY)
    decreases |ms|
  {
    if ms == [] {
      assert h + ms == h;
    } else {
      var h' := Append(h, ms[0]);
      AppendAllKeepsLatest(h', ms[1..]);
      LastNAbsorbs(h + [ms[0]], ms[1..], MAX_HISTORY);
      assert h + [ms[0]] + ms[1..] == h + ms;
    }
  }
}
