/**
 * Time as both scripts use it: creation and "now" are whole seconds since
 * the epoch, and an image's age is the `days` field of the `timedelta`
 * `now - creation`, which Python floors.
 */
module Timestamps {

  const SecondsPerDay: int := 86400

  /** The rotation policy both scripts apply: images older than this many days should be replaced. */
  const RotationDays: int := 90

  /** `(now - creation).days`: the whole number of days, rounded down, between the two instants. */
  function AgeDays(now: int, creation: int): (d: int)
    ensures d * SecondsPerDay <= now - creation < (d + 1) * SecondsPerDay
    ensures creation <= now ==> d >= 0
    ensures now < creation ==> d < 0
  {
    (now - creation) / SecondsPerDay
  }

  /** A later "now" never gives a smaller age: repeated runs report non-decreasing ages. */
  lemma AgeDaysMonotone(now: int, later: int, creation: int)
    requires now <= later
    ensures AgeDays(now, creation) <= AgeDays(later, creation)
  {
  }

  /** Exactly one day more of elapsed time adds exactly one to the age. */
  lemma AgeDaysShift(now: int, creation: int)
    ensures AgeDays(now + SecondsPerDay, creation) == AgeDays(now, creation) + 1
  {
  }

  /**
   * `s.replace('Z', '+00:00')`: the normalisation applied to an ISO-8601
   * creation date before `datetime.fromisoformat` sees it.
   */
  function ReplaceZ(s: string): (r: string)
    ensures 'Z' !in r
    ensures 'Z' !in s ==> r == s
  {
    if |s| == 0 then ""
    else (if s[0] == 'Z' then "+00:00" else [s[0]]) + ReplaceZ(s[1..])
  }

  /** The rewrite works character by character: it distributes over concatenation. */
  lemma {:induction false} ReplaceZConcat(a: string, b: string)
    ensures ReplaceZ(a + b) == ReplaceZ(a) + ReplaceZ(b)
  {
    if |a| > 0 {
      assert (a + b)[1..] == a[1..] + b;
      ReplaceZConcat(a[1..], b);
    } else {
      assert a + b == b;
    }
  }

  /** Rewriting twice is rewriting once. */
  lemma ReplaceZIdempotent(s: string)
    ensures ReplaceZ(ReplaceZ(s)) == ReplaceZ(s)
  {
  }

  /** The one character it rewrites, and what it becomes; every other character is kept. */
  lemma ReplaceZSingle(c: char)
    ensures ReplaceZ([c]) == if c == 'Z' then "+00:00" else [c]
  {
    assert [c][1..] == "";
  }

  /** The AWS form `...T10:30:00.000Z` becomes `...T10:30:00.000+00:00`: a trailing `Z` becomes an explicit offset. */
  lemma ReplaceTrailingZ(s: string)
    requires 'Z' !in s
    ensures ReplaceZ(s + "Z") == s + "+00:00"
  {
    ReplaceZConcat(s, "Z");
    ReplaceZSingle('Z');
  }
}
