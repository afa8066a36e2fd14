/** The pause button of the main window (`toggle_pause`). */
module Controls {

  datatype Option<T> = None | Some(value: T)

  /** The window's hold on the worker: the worker's `is_paused` flag when a
      worker has been started, and the pause button's caption. */
  datatype Window = Window(worker: Option<bool>, pauseCaption: string)

  /** The caption names the action the button will take next. */
  function Caption(paused: bool): string {
    if paused then "Resume" else "Pause"
  }

  predicate CaptionAgrees(w: Window) {
    w.worker.Some? ==> w.pauseCaption == Caption(w.worker.value)
  }

  /** Flip the worker's pause flag and relabel the button; without a worker
      nothing happens. */
  function TogglePause(w: Window): (r: Window)
    ensures r.worker.None? <==> w.worker.None?
    ensures w.worker.None? ==> r == w
    ensures w.worker.Some? ==> r.worker.value != w.worker.value && CaptionAgrees(r)
  {
    match w.worker
    case None => w
    case Some(p) => Window(Some(!p), Caption(!p))
  }

  /** Two toggles restore the pause flag, and the whole window when its
      caption agreed with the flag. */
  lemma ToggleTwice(w: Window)
    ensures TogglePause(TogglePause(w)).worker == w.worker
    ensures CaptionAgrees(w) ==> TogglePause(TogglePause(w)) == w
  {}
}
