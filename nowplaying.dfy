/** The daemon of nowplaying.py around the shared `np` string: the watcher
    loop of `_main`, which stores the now-playing file's content when that
    file is closed after writing, and the publisher loop of
    `_send_data_thread`, which asks the streaming server to show the current
    title and then a station tagline. The HTTP requests, the sleeps and the
    random draw of a tagline are outside the model: a cycle returns the URLs
    it would request, and the tagline index is a parameter. */
module NowPlaying {
  import Metadata

  /** The file name the watcher waits for. */
  const WatchedFile := "nowplaying.txt"
  /** The stream mount whose metadata is updated. */
  const Mountpoint := "live.mp3"
  /** Appended after every published text. */
  const Branding := "101.7 CIVL Radio"
  /** The taglines published between titles. */
  const Generic: seq<string> := [
    "UFV Campus and Community Radio",
    "Canada's Original #1 Campus Radio Station",
    "Serving Abbotsford, Mission, Chilliwack, and Langley"
  ]
  /** The inotify event type that marks a file closed after writing. */
  const CloseWrite := "IN_CLOSE_WRITE"

  /** One inotify event: its type names, the watched directory and the name
      of the file it concerns (the raw event header is not used). */
  datatype Event = Event(typeNames: seq<string>, path: string, filename: string)

  /** The outcome of opening and reading the watched file. */
  datatype ReadResult = Contents(text: string) | ReadFailed

  /** An event the watcher acts on: the watched file was closed after a
      write. */
  predicate IsUpdate(ev: Event)
  {
    CloseWrite in ev.typeNames && ev.filename == WatchedFile
  }

  /** The request that publishes the current title. */
  function NowPlayingUrl(np: string): string
  {
    Metadata.MetadataUrl(Mountpoint, np, Branding)
  }

  /** The request that publishes the tagline `thingy`. */
  function TaglineUrl(thingy: string): string
  {
    Metadata.MetadataUrl(Mountpoint, thingy, Branding)
  }

  /** Every drawn tagline is one of the station's taglines. */
  predicate FromGeneric(thingies: seq<string>)
  {
    forall k :: 0 <= k < |thingies| ==> thingies[k] in Generic
  }

  /** The title after the watcher has handled one event. */
  function Next(np: string, ev: Event, read: ReadResult): string
  {
    if IsUpdate(ev) && read.Contents? then read.text else np
  }

  /** The title after the watcher has handled `events` in order, where
      `outcomes[i]` is what reading the file yields at event `i`. */
  function Replay(np: string, events: seq<Event>, outcomes: seq<ReadResult>): string
    requires |outcomes| == |events|
  {
    if events == [] then np
    else
      var n := |events| - 1;
      Next(Replay(np, events[..n], outcomes[..n]), events[n], outcomes[n])
  }

  /** An event at which the watcher stops: the watched file was written but
      could not be read. */
  predicate Fails(ev: Event, read: ReadResult)
  {
    IsUpdate(ev) && read.ReadFailed?
  }

  /** The requests of one publisher cycle for title `np` that draws the
      tagline `thingy`. */
  function CycleUrls(np: string, thingy: string): seq<string>
  {
    (if np == "" then [] else [NowPlayingUrl(np)]) + [TaglineUrl(thingy)]
  }

  /** The requests of consecutive publisher cycles for title `np`, the
      `k`-th drawing the tagline `thingies[k]`. */
  function PublishUrls(np: string, thingies: seq<string>): seq<string>
  {
    if thingies == [] then []
    else
      var n := |thingies| - 1;
      PublishUrls(np, thingies[..n]) + CycleUrls(np, thingies[n])
  }

  /** Events that do not update the title leave it unchanged. */
  lemma {:induction false} ReplayWithoutUpdates(np: string, events: seq<Event>, outcomes: seq<ReadResult>)
    requires |outcomes| == |events|
    requires forall i :: 0 <= i < |events| ==> !(IsUpdate(events[i]) && outcomes[i].Contents?)
    ensures Replay(np, events, outcomes) == np
  {
    if events != [] {
      var n := |events| - 1;
      ReplayWithoutUpdates(np, events[..n], outcomes[..n]);
    }
  }

  /** The title is the content read at the last update event that read
      successfully. */
  lemma {:induction false} ReplayLastUpdateWins(np: string, events: seq<Event>, outcomes: seq<ReadResult>, k: nat)
    requires |outcomes| == |events| && k < |events|
    requires IsUpdate(events[k]) && outcomes[k].Contents?
    requires forall j :: k < j < |events| ==> !(IsUpdate(events[j]) && outcomes[j].Contents?)
    ensures Replay(np, events, outcomes) == outcomes[k].text
  {
    var n := |events| - 1;
    if k < n {
      ReplayLastUpdateWins(np, events[..n], outcomes[..n], k);
    }
  }

  /** A now-playing request and a tagline request coincide only when the
      title is that tagline. */
  lemma NowPlayingIsNotTagline(np: string, thingy: string)
    ensures NowPlayingUrl(np) == TaglineUrl(thingy) <==> np == thingy
  {
    if NowPlayingUrl(np) == TaglineUrl(thingy) {
      Metadata.MetadataUrlInjective(Mountpoint, np, thingy, Branding);
    }
  }

  /** The shape of a run of cycles with no title: one tagline request per
      cycle. */
  lemma {:induction false} PublishWithoutTitle(thingies: seq<string>)
    ensures |PublishUrls("", thingies)| == |thingies|
    ensures forall k :: 0 <= k < |thingies| ==> PublishUrls("", thingies)[k] == TaglineUrl(thingies[k])
  {
    if thingies != [] {
      var n := |thingies| - 1;
      var prefix, urls := thingies[..n], PublishUrls("", thingies);
      PublishWithoutTitle(prefix);
      var before, last := PublishUrls("", prefix), TaglineUrl(thingies[n]);
      assert CycleUrls("", thingies[n]) == [last];
      assert urls == before + [last];
      assert |before| == n;
      forall k | 0 <= k < |thingies|
        ensures urls[k] == TaglineUrl(thingies[k])
      {
        if k < n {
          assert k < |before|;
          assert thingies[k] == prefix[k];
          assert urls[k] == before[k];
        } else {
          assert k == |before|;
        }
      }
    }
  }

  /** The shape of a run of cycles with a title: each cycle requests the
      title, then a tagline. */
  lemma {:induction false} PublishWithTitle(np: string, thingies: seq<string>)
    requires np != ""
    ensures |PublishUrls(np, thingies)| == 2 * |thingies|
    ensures forall k :: 0 <= k < |thingies| ==>
      PublishUrls(np, thingies)[2 * k] == NowPlayingUrl(np) &&
      PublishUrls(np, thingies)[2 * k + 1] == TaglineUrl(thingies[k])
  {
    if thingies != [] {
      var n := |thingies| - 1;
      var prefix, urls := thingies[..n], PublishUrls(np, thingies);
      PublishWithTitle(np, prefix);
      var before := PublishUrls(np, prefix);
      var title, last := NowPlayingUrl(np), TaglineUrl(thingies[n]);
      assert CycleUrls(np, thingies[n]) == [title, last];
      assert urls == before + [title, last];
      assert |before| == 2 * n;
      forall k | 0 <= k < |thingies|
        ensures urls[2 * k] == title && urls[2 * k + 1] == TaglineUrl(thingies[k])
      {
        if k < n {
          assert 2 * k + 1 < |before|;
          assert thingies[k] == prefix[k];
          assert urls[2 * k] == before[2 * k] && urls[2 * k + 1] == before[2 * k + 1];
        } else {
          assert 2 * k == |before|;
        }
      }
    }
  }

  /** One more cycle extends the requests of a run by that cycle's. */
  lemma PublishStep(np: string, thingies: seq<string>, k: nat, cycle: seq<string>)
    requires k < |thingies|
    requires |cycle| == if np == "" then 1 else 2
    requires np != "" ==> cycle[0] == NowPlayingUrl(np)
    requires cycle[|cycle| - 1] == TaglineUrl(thingies[k])
    ensures PublishUrls(np, thingies[..k + 1]) == PublishUrls(np, thingies[..k]) + cycle
  {
    assert thingies[..k + 1][..k] == thingies[..k];
    if np == "" {
      assert cycle == [cycle[0]];
    } else {
      assert cycle == [cycle[0], cycle[1]];
    }
    assert cycle == CycleUrls(np, thingies[k]);
  }

  /** The daemon's shared state: the last title read from the watched
      file, `""` until one has been read. */
  class Station {
    var np: string

    constructor ()
      ensures np == ""
    {
      np := "";
    }

    /** One step of the watcher loop. An update event stores the file's
        content; if the file cannot be read the watcher stops. Every other
        event is ignored. */
    method HandleEvent(ev: Event, read: ReadResult) returns (stop: bool)
      modifies this
      ensures stop <==> Fails(ev, read)
      ensures IsUpdate(ev) && read.Contents? ==> np == read.text
      ensures !(IsUpdate(ev) && read.Contents?) ==> np == old(np)
    {
      stop := false;
      if !(CloseWrite in ev.typeNames) {
        // not a close-after-write: nothing to do
      } else if ev.filename == WatchedFile {
        match read
        case Contents(text) =>
          np := text;
        case ReadFailed =>
          stop := true;
      }
    }

    /** The watcher loop over a finite run of events: handles them in order
        until the end or until the watched file cannot be read. Returns how
        many events were handled and whether it stopped early. */
    method Watch(events: seq<Event>, outcomes: seq<ReadResult>) returns (handled: nat, stopped: bool)
      requires |outcomes| == |events|
      modifies this
      ensures handled <= |events|
      ensures forall i :: 0 <= i < handled - 1 ==> !Fails(events[i], outcomes[i])
      ensures stopped <==> 0 < handled && Fails(events[handled - 1], outcomes[handled - 1])
      ensures !stopped ==> handled == |events|
      ensures np == Replay(old(np), events[..handled], outcomes[..handled])
    {
      handled, stopped := 0, false;
      while handled < |events| && !stopped
        invariant handled <= |events|
        invariant forall i :: 0 <= i < handled - 1 ==> !Fails(events[i], outcomes[i])
        invariant 0 < handled ==> (stopped <==> Fails(events[handled - 1], outcomes[handled - 1]))
        invariant handled == 0 ==> !stopped
        invariant np == Replay(old(np), events[..handled], outcomes[..handled])
      {
        assert events[..handled + 1][..handled] == events[..handled];
        assert outcomes[..handled + 1][..handled] == outcomes[..handled];
        stopped := HandleEvent(events[handled], outcomes[handled]);
        handled := handled + 1;
      }
    }

    /** One cycle of the publisher loop that draws the tagline `thingy`:
        no title request while the title is empty, otherwise one for the
        current title; then always one tagline request. The title is only
        read. */
    method Cycle(thingy: string) returns (urls: seq<string>)
      requires thingy in Generic
      ensures |urls| == if np == "" then 1 else 2
      ensures np != "" ==> urls[0] == NowPlayingUrl(np)
      ensures urls[|urls| - 1] == TaglineUrl(thingy)
    {
      urls := [];
      if np == "" {
        // no title yet: only a warning is logged
      } else {
        urls := urls + [Metadata.MetadataUrl(Mountpoint, np, Branding)];
      }
      urls := urls + [Metadata.MetadataUrl(Mountpoint, thingy, Branding)];
    }

    /** `|thingies|` iterations of the publisher loop, the `k`-th drawing
        the tagline `thingies[k]`, with no title written in between: with no
        title, one tagline request per cycle; with a title, the title request
        and then a tagline request in every cycle. */
    method Publish(thingies: seq<string>) returns (urls: seq<string>)
      requires FromGeneric(thingies)
      ensures urls == PublishUrls(np, thingies)
      ensures np == "" ==> |urls| == |thingies|
      ensures np == "" ==> forall k :: 0 <= k < |thingies| ==> urls[k] == TaglineUrl(thingies[k])
      ensures np != "" ==> |urls| == 2 * |thingies|
      ensures np != "" ==> forall k :: 0 <= k < |thingies| ==>
        urls[2 * k] == NowPlayingUrl(np) && urls[2 * k + 1] == TaglineUrl(thingies[k])
    {
      urls := [];
      var k := 0;
      while k < |thingies|
        invariant k <= |thingies|
        invariant urls == PublishUrls(np, thingies[..k])
      {
        var cycle := Cycle(thingies[k]);
        PublishStep(np, thingies, k, cycle);
        urls := urls + cycle;
        k := k + 1;
      }
      assert thingies[..k] == thingies;
      if np == "" {
        PublishWithoutTitle(thingies);
      } else {
        PublishWithTitle(np, thingies);
      }
    }
  }
}
