/** The request budget of the chunking pass: a counter and a window start,
    checked before every language-model request. With 15 requests counted,
    the pass waits out the rest of a 60-unit window (if any is left) and
    opens a new window. The clock is an input; a wait is taken to last
    exactly as long as requested, so the clock after it reads
    `now + slept`. */
module RateGate {

  const Limit: nat := 15
  const WindowLength: real := 60.0

  /** `gemini_request_count` and `gemini_request_start`. */
  datatype Window = Window(count: nat, start: real)

  /** The gate's decision: the window the request goes out under, and how
      long the pass slept first. */
  datatype Admission = Admission(window: Window, slept: real)

  /** The check in front of a request, made at clock reading `now`. */
  function Admit(w: Window, now: real): (a: Admission)
    ensures a.window.count < Limit
    ensures a.slept >= 0.0
    ensures w.count < Limit ==> a == Admission(w, 0.0)
    ensures w.count >= Limit ==> a.window.count == 0 && a.window.start == now + a.slept
    ensures w.count >= Limit ==> a.window.start >= w.start + WindowLength && a.window.start >= now
    ensures a.slept > 0.0 <==> w.count >= Limit && now - w.start < WindowLength
  {
    if w.count >= Limit then
      var elapsed := now - w.start;
      var sleep := if elapsed < WindowLength then WindowLength - elapsed else 0.0;
      Admission(Window(0, now + sleep), sleep)
    else
      Admission(w, 0.0)
  }

  /** The counter after a request that returned; a request that raised is
      not counted. */
  function Counted(w: Window): Window {
    w.(count := w.count + 1)
  }

  /** With 15 requests counted and time left in the window, the next request
      waits until the window's end and becomes the first of a new window. */
  lemma SixteenthRequestWaits(start: real, now: real)
    requires start <= now < start + WindowLength
    ensures Admit(Window(Limit, start), now).slept == start + WindowLength - now
    ensures Admit(Window(Limit, start), now).window == Window(0, start + WindowLength)
    ensures Counted(Admit(Window(Limit, start), now).window).count == 1
  {
  }

  /** With the window already over, the gate resets without waiting. */
  lemma ExpiredWindowResetsAtOnce(w: Window, now: real)
    requires w.count >= Limit && now - w.start >= WindowLength
    ensures Admit(w, now) == Admission(Window(0, now), 0.0)
  {
  }

  // ---------------------------------------------------------------------
  // The budget over a whole pass
  // ---------------------------------------------------------------------

  /** One request as it went out: the window it was admitted under, and
      whether it returned (and so was counted). */
  datatype Issued = Issued(window: Window, replied: bool)

  /** The promise of the gate over a log of requests: each one went out with
      fewer than 15 counted; window starts never go back; two requests in
      different windows are at least 60 units apart in window start; and
      within one window the counts of returned requests strictly increase,
      so at most 15 returned requests share a window. */
  predicate WellSpaced(log: seq<Issued>) {
    && (forall i | 0 <= i < |log| :: log[i].window.count < Limit)
    && (forall i, j | 0 <= i < j < |log| ::
          && log[i].window.start <= log[j].window.start
          && (log[i].window.start != log[j].window.start ==>
                log[i].window.start + WindowLength <= log[j].window.start)
          && (log[i].window.start == log[j].window.start && log[i].replied ==>
                log[i].window.count < log[j].window.count))
  }

  /** `log` is well spaced, and the current window `w` continues it. */
  predicate SpacedBefore(log: seq<Issued>, w: Window) {
    && WellSpaced(log)
    && (forall i | 0 <= i < |log| ::
          && log[i].window.start <= w.start
          && (log[i].window.start != w.start ==> log[i].window.start + WindowLength <= w.start)
          && (log[i].window.start == w.start && log[i].replied ==> log[i].window.count < w.count))
  }

  /** One request: admitted at `now`, then counted if it returned. */
  function Request(w: Window, now: real, replied: bool): (r: (Issued, Window))
    ensures r.0.window.count < Limit
    ensures w.start <= r.0.window.start && r.1.start == r.0.window.start
    ensures r.1.count <= Limit
  {
    var admitted := Admit(w, now).window;
    (Issued(admitted, replied), if replied then Counted(admitted) else admitted)
  }

  /** Every request keeps the log well spaced. */
  lemma RequestKeepsSpacing(log: seq<Issued>, w: Window, now: real, replied: bool)
    requires SpacedBefore(log, w)
    ensures SpacedBefore(log + [Request(w, now, replied).0], Request(w, now, replied).1)
  {
  }

  /** Number of returned requests in `log` admitted under a window that
      started at `start`. */
  function RepliedIn(log: seq<Issued>, start: real): nat {
    if |log| == 0 then 0
    else
      var last := log[|log| - 1];
      RepliedIn(log[..|log| - 1], start) + (if last.replied && last.window.start == start then 1 else 0)
  }

  lemma {:induction false} RepliedInBelow(log: seq<Issued>, start: real, n: nat, bound: nat)
    requires WellSpaced(log) && n <= |log|
    requires forall i | 0 <= i < n && log[i].replied && log[i].window.start == start ::
               log[i].window.count < bound
    ensures RepliedIn(log[..n], start) <= bound
  {
    if n > 0 {
      var e := log[n - 1];
      assert log[..n][..n - 1] == log[..n - 1];
      if e.replied && e.window.start == start {
        RepliedInBelow(log, start, n - 1, e.window.count);
      } else {
        RepliedInBelow(log, start, n - 1, bound);
      }
    }
  }

  /** A well-spaced log holds at most 15 returned requests per window. */
  lemma AtMostLimitPerWindow(log: seq<Issued>, start: real)
    requires WellSpaced(log)
    ensures RepliedIn(log, start) <= Limit
  {
    RepliedInBelow(log, start, |log|, Limit);
    assert log[..|log|] == log;
  }
}
