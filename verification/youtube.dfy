/** The YouTube embed-URL extractor `getYouTubeEmbedUrl`, written out
    identically in client/src/pages/CreateCourse.tsx and
    client/src/pages/CourseViewer.tsx; both pages use this one definition.

    The pattern is an optional scheme, an optional "www.", one of the markers
    "youtube.com/watch?v=" or "youtu.be/", and eleven id characters. The
    optional prefix holds no 'y' and both markers start with one, so the
    leftmost match of the pattern is the one whose marker is the leftmost
    marker followed by eleven id characters; the model searches for that
    marker directly. */
module YouTube {
  import opened Common
  import opened Seqs

  const WATCH_MARKER: string := "youtube.com/watch?v="
  const SHORT_MARKER: string := "youtu.be/"
  const EMBED_PREFIX: string := "https://www.youtube.com/embed/"
  const ID_LENGTH: nat := 11

  /** A character of the class [a-zA-Z0-9_-]. */
  predicate IdChar(c: char) {
    ('a' <= c <= 'z') || ('A' <= c <= 'Z') || ('0' <= c <= '9') || c == '_' || c == '-'
  }

  predicate IsVideoId(s: string) {
    |s| == ID_LENGTH && forall i :: 0 <= i < |s| ==> IdChar(s[i])
  }

  /** The eleven characters starting at `at`, when they are all id characters. */
  function IdFrom(url: string, at: nat): (r: Option<string>)
    ensures r.Some? ==> IsVideoId(r.value) && at + ID_LENGTH <= |url| && r.value == url[at..at + ID_LENGTH]
  {
    if at + ID_LENGTH <= |url| && IsVideoId(url[at..at + ID_LENGTH]) then Some(url[at..at + ID_LENGTH]) else None
  }

  /** The video id when a marker starts at `q` and eleven id characters
      follow it. */
  function IdAt(url: string, q: nat): (r: Option<string>)
    ensures r.Some? ==> IsVideoId(r.value)
    ensures r.Some? ==> q < |url| && url[q] == 'y'
  {
    if OccursAt(url, WATCH_MARKER, q) then IdFrom(url, q + |WATCH_MARKER|)
    else if OccursAt(url, SHORT_MARKER, q) then IdFrom(url, q + |SHORT_MARKER|)
    else None
  }

  /** The embed URL for the leftmost marker at or after `from`. */
  function FindEmbed(url: string, from: nat): (r: Option<string>)
    ensures r.Some? <==> exists q :: from <= q <= |url| && IdAt(url, q).Some?
    ensures r.Some? ==>
      exists q :: (from <= q <= |url| && IdAt(url, q).Some?
        && r.value == EMBED_PREFIX + IdAt(url, q).value
        && forall q' :: from <= q' < q ==> IdAt(url, q').None?)
    ensures r.Some? ==>
      (&& |r.value| == |EMBED_PREFIX| + ID_LENGTH
       && r.value[..|EMBED_PREFIX|] == EMBED_PREFIX
       && IsVideoId(r.value[|EMBED_PREFIX|..]))
    decreases |url| - from
  {
    if from > |url| then None
    else
      match IdAt(url, from)
      case Some(id) =>
        assert (EMBED_PREFIX + id)[|EMBED_PREFIX|..] == id;
        Some(EMBED_PREFIX + id)
      case None => FindEmbed(url, from + 1)
  }

  /** getYouTubeEmbedUrl: the embed URL, or None (null) when the URL holds no
      marker followed by an id. */
  function EmbedUrl(url: string): (r: Option<string>)
    ensures r.Some? <==> exists q :: 0 <= q <= |url| && IdAt(url, q).Some?
    ensures r.Some? ==>
      exists q :: (0 <= q <= |url| && IdAt(url, q).Some?
        && r.value == EMBED_PREFIX + IdAt(url, q).value
        && forall p :: 0 <= p < q ==> IdAt(url, p).None?)
    ensures r.Some? ==>
      (&& |r.value| == |EMBED_PREFIX| + ID_LENGTH
       && r.value[..|EMBED_PREFIX|] == EMBED_PREFIX
       && IsVideoId(r.value[|EMBED_PREFIX|..]))
  {
    FindEmbed(url, 0)
  }

  /** No marker can start inside a prefix that holds no 'y'. */
  lemma NoMarkerBefore(url: string, k: nat)
    requires k <= |url|
    requires forall i :: 0 <= i < k ==> url[i] != 'y'
    ensures forall q :: 0 <= q < k ==> IdAt(url, q).None?
  {
  }

  /** A canonical watch URL gives the embed URL of its id. */
  lemma WatchUrl(id: string)
    requires IsVideoId(id)
    ensures EmbedUrl("https://www.youtube.com/watch?v=" + id) == Some(EMBED_PREFIX + id)
  {
    var url := "https://www.youtube.com/watch?v=" + id;
    assert url[12..12 + |WATCH_MARKER|] == WATCH_MARKER;
    assert url[32..32 + ID_LENGTH] == id;
    assert IdAt(url, 12) == Some(id);
    NoMarkerBefore(url, 12);
    FindFirst(url, 0, 12);
  }

  /** A short youtu.be URL gives the embed URL of its id. */
  lemma ShortUrl(id: string)
    requires IsVideoId(id)
    ensures EmbedUrl("https://youtu.be/" + id) == Some(EMBED_PREFIX + id)
  {
    var url := "https://youtu.be/" + id;
    assert url[13] != WATCH_MARKER[5];
    assert url[8..8 + |SHORT_MARKER|] == SHORT_MARKER;
    assert url[17..17 + ID_LENGTH] == id;
    assert IdAt(url, 8) == Some(id);
    NoMarkerBefore(url, 8);
    FindFirst(url, 0, 8);
  }

  /** The search returns the id at the first position that has one. */
  lemma {:induction false} FindFirst(url: string, from: nat, q: nat)
    requires from <= q <= |url| && IdAt(url, q).Some?
    requires forall q' :: from <= q' < q ==> IdAt(url, q').None?
    ensures FindEmbed(url, from) == Some(EMBED_PREFIX + IdAt(url, q).value)
    decreases q - from
  {
    if from < q {
      FindFirst(url, from + 1, q);
    }
  }
}
