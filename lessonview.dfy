/** The lesson screen (src/pages/LessonView.jsx): finding the YouTube id in a
    video address, the choice between an embedded player and a plain video, and
    the progress bar. Its area colours are those of the lesson list
    (`LessonsPage.AreaColor`). */
module LessonView {
  import opened Common

  /** The three address forms before an id, in the order of the pattern's
      alternatives. */
  const WatchPrefix := "youtube.com/watch?v="
  const EmbedPrefix := "youtube.com/embed/"
  const ShortPrefix := "youtu.be/"

  /** The length of a YouTube id. */
  const IdLength := 11

  /** `[a-zA-Z0-9_-]` */
  predicate IsIdChar(c: char)
  {
    'a' <= c <= 'z' || 'A' <= c <= 'Z' || '0' <= c <= '9' || c == '_' || c == '-'
  }

  /** The prefix `p` occurs at index `i` of `url` and eleven id characters
      follow it. */
  predicate Captures(url: string, i: nat, p: string)
  {
    OccursAt(url, p, i) && i + |p| + IdLength <= |url| && IsId(url[i + |p|..i + |p| + IdLength])
  }

  /** Eleven id characters. */
  predicate IsId(s: string)
  {
    |s| == IdLength && forall c <- s :: IsIdChar(c)
  }

  /** The id the pattern captures when its match starts at index `i`: the
      alternatives are tried in order, and each takes exactly eleven
      characters after its prefix. */
  function MatchAt(url: string, i: nat): (r: Option<string>)
    ensures r.Some? <==> Captures(url, i, WatchPrefix) || Captures(url, i, EmbedPrefix) || Captures(url, i, ShortPrefix)
    ensures r.Some? ==> IsId(r.value)
  {
    if Captures(url, i, WatchPrefix) then Some(IdAfter(url, i, WatchPrefix))
    else if Captures(url, i, EmbedPrefix) then Some(IdAfter(url, i, EmbedPrefix))
    else if Captures(url, i, ShortPrefix) then Some(IdAfter(url, i, ShortPrefix))
    else None
  }

  /** The eleven characters after the prefix. */
  function IdAfter(url: string, i: nat, p: string): (id: string)
    requires Captures(url, i, p)
    ensures IsId(id)
  {
    url[i + |p|..i + |p| + IdLength]
  }

  /** The leftmost match at index `i` or later. */
  function SearchFrom(url: string, i: nat): (r: Option<string>)
    ensures r.None? <==> forall j :: i <= j <= |url| ==> MatchAt(url, j).None?
    ensures r.Some? ==> exists j :: i <= j <= |url| && r == MatchAt(url, j) && forall k :: i <= k < j ==> MatchAt(url, k).None?
    decreases |url| - i
  {
    if i > |url| then None
    else if MatchAt(url, i).Some? then MatchAt(url, i)
    else SearchFrom(url, i + 1)
  }

  /** `getYouTubeId(url)`: the id captured by the leftmost match of the
      unanchored pattern, which may start anywhere in the address; `None`
      (null) for an undefined address or one with no match. */
  function GetYouTubeId(url: Option<string>): (r: Option<string>)
    ensures url.None? ==> r.None?
    ensures url.Some? ==> (r.None? <==> forall i :: 0 <= i <= |url.value| ==> MatchAt(url.value, i).None?)
    ensures r.Some? ==>
      exists i :: 0 <= i <= |url.value| && r == MatchAt(url.value, i) && forall k :: 0 <= k < i ==> MatchAt(url.value, k).None?
    ensures r.Some? ==> IsId(r.value)
  {
    if url.None? then None else SearchFrom(url.value, 0)
  }

  /** An address starting with a prefix and an id yields that id whatever
      follows: only eleven characters are taken, however long the run of id
      characters. */
  lemma ElevenCharsTaken(p: string, id: string, rest: string)
    requires p == WatchPrefix || p == EmbedPrefix || p == ShortPrefix
    requires IsId(id)
    ensures GetYouTubeId(Some(p + id + rest)) == Some(id)
  {
    PrefixThenId(p, id, rest);
  }

  /** The match at the start of a prefix followed by an id captures that id. */
  lemma PrefixThenId(p: string, id: string, rest: string)
    requires p == WatchPrefix || p == EmbedPrefix || p == ShortPrefix
    requires IsId(id)
    ensures MatchAt(p + id + rest, 0) == Some(id)
  {
    var url := p + id + rest;
    assert url[..|p|] == p && url[|p|..|p| + IdLength] == id;
    assert Captures(url, 0, p);
    if p == EmbedPrefix {
      assert !OccursAt(url, WatchPrefix, 0) by {
        assert url[12] == p[12] != WatchPrefix[12];
      }
    } else if p == ShortPrefix {
      assert !OccursAt(url, WatchPrefix, 0) && !OccursAt(url, EmbedPrefix, 0) by {
        assert url[5] == p[5] != EmbedPrefix[5] == WatchPrefix[5];
      }
    }
  }

  /** Text put before an address moves its matches along without changing
      them. */
  lemma ShiftMatch(before: string, url: string, i: nat)
    ensures MatchAt(before + url, |before| + i) == MatchAt(url, i)
  {
    ShiftCaptures(before, url, i, WatchPrefix);
    ShiftCaptures(before, url, i, EmbedPrefix);
    ShiftCaptures(before, url, i, ShortPrefix);
  }

  lemma ShiftCaptures(before: string, url: string, i: nat, p: string)
    ensures Captures(before + url, |before| + i, p) == Captures(url, i, p)
    ensures Captures(url, i, p) ==> IdAfter(before + url, |before| + i, p) == IdAfter(url, i, p)
  {
    var whole := before + url;
    var j := |before| + i;
    if i + |p| <= |url| {
      assert whole[j..j + |p|] == url[i..i + |p|];
    }
    if i + |p| + IdLength <= |url| {
      assert whole[j + |p|..j + |p| + IdLength] == url[i + |p|..i + |p| + IdLength];
    }
  }

  /** The match may start anywhere: an address with an id keeps yielding one
      whatever text is put before it. */
  lemma MatchAnywhere(before: string, url: string)
    requires GetYouTubeId(Some(url)).Some?
    ensures GetYouTubeId(Some(before + url)).Some?
  {
    var i :| 0 <= i <= |url| && GetYouTubeId(Some(url)) == MatchAt(url, i);
    ShiftMatch(before, url, i);
    assert MatchAt(before + url, |before| + i).Some?;
  }

  // ---------------------------------------------------------------------------
  // Player and progress

  /** What plays the current video: a YouTube embed of its id, or a plain
      video element with the address as given. */
  datatype Player = Embed(embedSrc: string) | PlainVideo(videoSrc: Option<string>)

  /** `https://www.youtube.com/embed/`, the embed prefix behind the host. */
  const EmbedHost := "https://www."
  const EmbedBase := EmbedHost + EmbedPrefix

  /** The player of the current video: an embed when an id is found, else a
      plain video of the address itself. */
  function PlayerFor(url: Option<string>): (p: Player)
    ensures p.PlainVideo? <==> GetYouTubeId(url).None?
    ensures p.PlainVideo? ==> p.videoSrc == url
    ensures p.Embed? ==> p.embedSrc == EmbedBase + GetYouTubeId(url).value
  {
    match GetYouTubeId(url)
    case Some(id) => Embed(EmbedBase + id)
    case None => PlainVideo(url)
  }

  /** The embed address built from an id holds that very id: the player's own
      address reads back as the video it shows. */
  lemma EmbedRoundTrip(url: Option<string>)
    requires PlayerFor(url).Embed?
    ensures GetYouTubeId(Some(PlayerFor(url).embedSrc)) == GetYouTubeId(url)
  {
    EmbedAddressYields(GetYouTubeId(url).value);
  }

  /** The embed address of an id yields that id. */
  lemma EmbedAddressYields(id: string)
    requires IsId(id)
    ensures GetYouTubeId(Some(EmbedBase + id)) == Some(id)
  {
    var tail := EmbedPrefix + id;
    assert EmbedBase + id == EmbedHost + tail;
    PrefixThenId(EmbedPrefix, id, []);
    assert tail + [] == tail;
    HostCannotMatch();
    FoundAfter(EmbedHost, tail, id);
  }

  lemma HostCannotMatch()
    ensures forall k :: 0 <= k < |EmbedHost| ==> EmbedHost[k] != 'y'
  {
  }

  /** An id at the start of `tail` is the one found in `head + tail` when no
      character of `head` can start a match. */
  lemma FoundAfter(head: string, tail: string, id: string)
    requires MatchAt(tail, 0) == Some(id)
    requires forall k :: 0 <= k < |head| ==> head[k] != 'y'
    ensures GetYouTubeId(Some(head + tail)) == Some(id)
  {
    var src := head + tail;
    ShiftMatch(head, tail, 0);
    forall k | 0 <= k < |head| ensures MatchAt(src, k).None? {
      assert src[k] == head[k];
      NoMatchAt(src, k);
    }
    var n := |head|;
    assert MatchAt(src, n) == Some(id);
    var r := GetYouTubeId(Some(src));
    assert r.Some? by {
      assert n <= |src| && MatchAt(src, n).Some?;
    }
    var i :| 0 <= i <= |src| && r == MatchAt(src, i) && forall k :: 0 <= k < i ==> MatchAt(src, k).None?;
    assert n <= i;
    assert i <= n;
  }

  /** Every prefix starts with `y`, so nothing matches where there is none. */
  lemma NoMatchAt(url: string, k: nat)
    requires k < |url| && url[k] != 'y'
    ensures MatchAt(url, k).None?
  {
    assert WatchPrefix[0] == EmbedPrefix[0] == ShortPrefix[0] == 'y';
  }

  /** The progress bar is full for a lesson already completed and half full
      otherwise. */
  function ProgressWidth(alreadyCompleted: bool): (percent: nat)
    ensures percent <= 100
    ensures percent == 100 <==> alreadyCompleted
  {
    if alreadyCompleted then 100 else 50
  }
}
