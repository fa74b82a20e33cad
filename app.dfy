/**
  The page script's state changes (TPAM-project/app.js): swapping the `<main>`
  region on in-app navigation with its offline fallback and session history,
  the camera stream slot, and the rendering of the saved list.

  Every `fetch` the script makes is a parameter saying what it settled to; the
  DOM nodes the code touches are fields.
 */
module App {
  import opened Web
  import opened PageText

  /** Toast shown when neither the page nor the offline fragment can be loaded. */
  const NO_OFFLINE_TOAST: string := "Brak połączenia i brak offline strony."

  /** Sole entry of a saved list with nothing in it. */
  const EMPTY_LIST_ENTRY: string := "Brak zapisanej zawartości"

  /** `loadPage` gets through its successful branch: the page fetched with an ok status,
      and the history entry, if one is asked for, could be pushed (its URL is on the
      document's origin). */
  predicate PageShown(page: Fetched, addToHistory: bool, sameOrigin: bool) {
    page.Ok() && (!addToHistory || sameOrigin)
  }

  /** The document as the navigation code sees it. */
  class Document {
    /** Whether `document.querySelector('main')` finds a region. */
    const hasMain: bool
    /** The `innerHTML` of that region. */
    var main: string
    /** The entries pushed with `history.pushState`, oldest first. */
    var history: seq<Url>
    /** The text of the toast, once one has been shown. */
    var toast: Option<string>

    constructor (hasMain: bool, main: string)
      ensures this.hasMain == hasMain && this.main == main
      ensures history == [] && toast == None
    {
      this.hasMain := hasMain;
      this.main := main;
      history := [];
      toast := None;
    }

    /** `loadPage(url, addToHistory)`. `page` is what `fetch(url)` settles to, `offline` what
        the fetch of the offline fragment settles to; the latter is made only when the
        page cannot be shown. `sameOrigin` says whether `url` is on the document's origin:
        otherwise `history.pushState` throws, after main was already replaced, and the
        offline branch runs. */
    method LoadPage(url: Url, addToHistory: bool, sameOrigin: bool, page: Fetched, offline: Fetched)
      modifies this
      ensures PageShown(page, addToHistory, sameOrigin) ==>
        main == (if hasMain then ExtractMain(page.response.body) else old(main))
      ensures PageShown(page, addToHistory, sameOrigin) ==>
        history == old(history) + (if addToHistory then [url] else [])
      ensures !PageShown(page, addToHistory, sameOrigin) && offline.Resolved? ==>
        main == (if hasMain then ExtractMain(offline.response.body) else old(main))
      ensures !PageShown(page, addToHistory, sameOrigin) ==> history == old(history)
      ensures !PageShown(page, addToHistory, sameOrigin) && offline.Rejected? ==>
        main == (if page.Ok() && hasMain then ExtractMain(page.response.body) else old(main))
      ensures !PageShown(page, addToHistory, sameOrigin) && offline.Rejected? ==>
        toast == Some(NO_OFFLINE_TOAST)
      ensures PageShown(page, addToHistory, sameOrigin) || offline.Resolved? ==> toast == old(toast)
    {
      var failed := !page.Ok();
      if page.Ok() {
        if hasMain {
          main := ExtractMain(page.response.body);
        }
        if addToHistory {
          if sameOrigin {
            history := history + [url];
          } else {
            failed := true;
          }
        }
      }
      if failed {
        if offline.Resolved? {
          if hasMain {
            main := ExtractMain(offline.response.body);
          }
        } else {
          toast := Some(NO_OFFLINE_TOAST);
        }
      }
    }

    /** A click on a navigation link with this `href`: internal links are loaded in place
        (the flag says the default navigation was prevented), the others are left alone. */
    method OnLinkClick(href: string, sameOrigin: bool, page: Fetched, offline: Fetched) returns (intercepted: bool)
      modifies this
      ensures intercepted <==> IsInternal(href)
      ensures !intercepted ==> main == old(main) && history == old(history) && toast == old(toast)
      ensures intercepted && PageShown(page, true, sameOrigin) ==>
        main == (if hasMain then ExtractMain(page.response.body) else old(main))
      ensures intercepted && PageShown(page, true, sameOrigin) ==> history == old(history) + [href]
      ensures intercepted && !PageShown(page, true, sameOrigin) && offline.Resolved? ==>
        main == (if hasMain then ExtractMain(offline.response.body) else old(main))
      ensures intercepted && !PageShown(page, true, sameOrigin) ==> history == old(history)
      ensures intercepted && !PageShown(page, true, sameOrigin) && offline.Rejected? ==>
        main == (if page.Ok() && hasMain then ExtractMain(page.response.body) else old(main))
      ensures intercepted && !PageShown(page, true, sameOrigin) && offline.Rejected? ==>
        toast == Some(NO_OFFLINE_TOAST)
      ensures intercepted && (PageShown(page, true, sameOrigin) || offline.Resolved?) ==> toast == old(toast)
    {
      intercepted := IsInternal(href);
      if intercepted {
        LoadPage(href, true, sameOrigin, page, offline);
      }
    }

    /** Back or forward navigation: the page at `pathname` is loaded again, and no history
        entry is pushed. */
    method OnPopState(pathname: Url, page: Fetched, offline: Fetched)
      modifies this
      ensures history == old(history)
      ensures page.Ok() ==> main == (if hasMain then ExtractMain(page.response.body) else old(main))
      ensures !page.Ok() && offline.Resolved? ==>
        main == (if hasMain then ExtractMain(offline.response.body) else old(main))
      ensures !page.Ok() && offline.Rejected? ==> main == old(main) && toast == Some(NO_OFFLINE_TOAST)
      ensures page.Ok() || offline.Resolved? ==> toast == old(toast)
    {
      LoadPage(pathname, false, true, page, offline);
    }
  }

  /** A track of a camera stream; `Stop` ends it. */
  class MediaTrack {
    var ended: bool

    constructor ()
      ensures !ended
    {
      ended := false;
    }

    method Stop()
      modifies this
      ensures ended
    {
      ended := true;
    }
  }

  class MediaStream {
    const tracks: seq<MediaTrack>

    constructor (tracks: seq<MediaTrack>)
      ensures this.tracks == tracks
    {
      this.tracks := tracks;
    }
  }

  function TracksOf(s: MediaStream?): set<MediaTrack> {
    if s == null then {} else set t | t in s.tracks
  }

  /** The camera controls bound on a page: the stream slot and what is on screen. */
  class Camera {
    /** Whether the page has the preview element and the stop button. */
    const hasPreview: bool
    const hasStopButton: bool
    /** The stream slot, null while no camera is open. */
    var stream: MediaStream?
    var previewShown: bool
    var stopButtonShown: bool
    /** Whether an alert about a refused camera has been shown. */
    var alerted: bool

    constructor (hasPreview: bool, hasStopButton: bool)
      ensures this.hasPreview == hasPreview && this.hasStopButton == hasStopButton
      ensures stream == null && !previewShown && !stopButtonShown && !alerted
    {
      this.hasPreview := hasPreview;
      this.hasStopButton := hasStopButton;
      stream := null;
      previewShown := false;
      stopButtonShown := false;
      alerted := false;
    }

    /** The open-camera handler; `granted` is the stream `getUserMedia` gives, or null when
        it rejects. A stream already in the slot is replaced without being stopped. */
    method Open(granted: MediaStream?)
      modifies this
      ensures granted != null ==> stream == granted && alerted == old(alerted)
      ensures granted != null ==> previewShown == (hasPreview || old(previewShown))
      ensures granted != null ==> stopButtonShown == (hasStopButton || old(stopButtonShown))
      ensures granted == null ==> stream == old(stream) && alerted
      ensures granted == null ==> previewShown == old(previewShown) && stopButtonShown == old(stopButtonShown)
    {
      if granted != null {
        stream := granted;
        if hasPreview {
          previewShown := true;
        }
        if hasStopButton {
          stopButtonShown := true;
        }
      } else {
        alerted := true;
      }
    }

    /** The stop-camera handler, bound only when the stop button exists: every track of the
        stream in the slot is stopped and the slot is cleared. */
    method Stop()
      requires hasStopButton
      modifies this, TracksOf(stream)
      ensures stream == null && !stopButtonShown
      ensures previewShown == (old(previewShown) && !hasPreview)
      ensures alerted == old(alerted)
      ensures old(stream) != null ==> forall t :: t in old(stream).tracks ==> t.ended
    {
      if stream != null {
        var tracks := stream.tracks;
        var i := 0;
        while i < |tracks|
          invariant 0 <= i <= |tracks|
          invariant forall j :: 0 <= j < i ==> tracks[j].ended
          modifies TracksOf(stream)
        {
          tracks[i].Stop();
          i := i + 1;
        }
        stream := null;
      }
      if hasPreview {
        previewShown := false;
      }
      stopButtonShown := false;
    }
  }

  /** The `#saved-list` element: the text of each of its entries, in order. */
  class SavedList {
    var entries: seq<string>

    constructor ()
      ensures entries == []
    {
      entries := [];
    }

    /** Renders the decoded saved items: one placeholder entry when there are none,
        otherwise one entry per item in stored order. */
    method Render(items: seq<string>)
      modifies this
      ensures items == [] ==> entries == [EMPTY_LIST_ENTRY]
      ensures items != [] ==> entries == items
    {
      entries := [];
      if |items| == 0 {
        entries := entries + [EMPTY_LIST_ENTRY];
      } else {
        var i := 0;
        while i < |items|
          invariant 0 <= i <= |items|
          invariant entries == items[..i]
        {
          entries := entries + [items[i]];
          i := i + 1;
        }
      }
    }
  }
}
