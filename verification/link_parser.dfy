/** Parsing a shared route link into an origin, a destination and the stops
    between them. URL parsing, percent-decoding and short-link expansion are
    the runtime's and the network's; they enter as function parameters. */
module LinkParser {
  import opened Types
  import opened Text

  /** A parsed URL: its path and its query parameters, in order, with
      percent-decoding already applied to the query values. */
  datatype Url = Url(pathname: string, query: seq<(string, string)>)

  /** The one message every parsing failure is reported with. */
  const FailureMessage := "Failed to parse Google Maps link. Please check the URL and try again."

  const ShortLinkHost := "maps.app.goo.gl"

  // ---------------------------------------------------------------------------
  // The `/dir/` path

  /** The path pattern can start matching at `i`: `/dir/` followed by a
      character other than `/`. */
  predicate DirMatchAt(p: string, i: int) {
    0 <= i && i + 5 < |p| && p[i..i + 5] == "/dir/" && p[i + 5] != '/'
  }

  /** The leftmost position at or after `from` where the path pattern matches. */
  function FindDir(p: string, from: nat): (r: Option<nat>)
    ensures r.Some? ==> from <= r.value && DirMatchAt(p, r.value)
    ensures forall i :: from <= i && (r.None? || i < r.value) ==> !DirMatchAt(p, i)
    decreases |p| - from
  {
    if from + 5 >= |p| then None
    else if DirMatchAt(p, from) then Some(from)
    else FindDir(p, from + 1)
  }

  /** How much of `s` the greedy `[^/]+(?:\/[^/]+)*` takes: everything up to
      the first `/` that is followed by another `/` or by the end. */
  function CaptureLength(s: string): (n: nat)
    ensures n <= |s|
  {
    if |s| == 0 then 0
    else if s[0] == '/' && (|s| == 1 || s[1] == '/') then 0
    else 1 + CaptureLength(s[1..])
  }

  /** The capture group of the path pattern, if it matches anywhere. */
  function DirCapture(p: string): Option<string> {
    match FindDir(p, 0)
    case None => None
    case Some(i) =>
      var rest := p[i + 5..];
      Some(rest[..CaptureLength(rest)])
  }

  /** No empty segment: non-empty, no leading or trailing `/`, no `//`. */
  predicate WellSegmented(s: string) {
    && |s| > 0 && s[0] != '/' && s[|s| - 1] != '/'
    && forall k :: 0 <= k < |s| - 1 ==> !(s[k] == '/' && s[k + 1] == '/')
  }

  lemma {:induction false} CaptureLengthShape(s: string)
    ensures var n := CaptureLength(s);
            && (n == |s| || (s[n] == '/' && (n + 1 == |s| || s[n + 1] == '/')))
            && (n > 0 && s[0] != '/' ==> WellSegmented(s[..n]))
            && (n > 0 ==> s[n - 1] != '/')
            && forall k :: 0 <= k < n - 1 ==> !(s[k] == '/' && s[k + 1] == '/')
    decreases |s|
  {
    if |s| > 0 && !(s[0] == '/' && (|s| == 1 || s[1] == '/')) {
      CaptureLengthShape(s[1..]);
      var n := CaptureLength(s);
      var m := CaptureLength(s[1..]);
      assert n == m + 1;
      forall k | 0 <= k < n - 1
        ensures !(s[k] == '/' && s[k + 1] == '/')
      {
        if k > 0 {
          assert s[k] == s[1..][k - 1] && s[k + 1] == s[1..][k];
        }
      }
      if m > 0 {
        assert s[n - 1] == s[1..][m - 1];
      }
    }
  }

  /** The capture is the longest run of non-empty `/`-separated segments
      right after the leftmost `/dir/` that starts one. */
  lemma DirCaptureShape(p: string)
    ensures DirCapture(p).None? <==> forall i :: 0 <= i < |p| ==> !DirMatchAt(p, i)
    ensures DirCapture(p).Some? ==>
              var i := FindDir(p, 0).value;
              var c := DirCapture(p).value;
              var rest := p[i + 5..];
              && WellSegmented(c)
              && rest[..|c|] == c
              && (|c| == |rest| || (rest[|c|] == '/' && (|c| + 1 == |rest| || rest[|c| + 1] == '/')))
  {
    if FindDir(p, 0).Some? {
      var i := FindDir(p, 0).value;
      var rest := p[i + 5..];
      CaptureLengthShape(rest);
      assert rest[0] == p[i + 5];
      assert CaptureLength(rest) > 0;
    }
  }

  // ---------------------------------------------------------------------------
  // `split("/")` and `filter(Boolean)`

  function IndexOf(s: string, c: char): (r: Option<nat>)
    ensures r.Some? ==> r.value < |s| && s[r.value] == c
    ensures forall k :: 0 <= k < |s| && (r.None? || k < r.value) ==> s[k] != c
  {
    if |s| == 0 then None
    else if s[0] == c then Some(0)
    else match IndexOf(s[1..], c)
      case None => None
      case Some(k) => Some(k + 1)
  }

  /** The pieces of `s` between occurrences of `c`, empty ones kept. */
  function Split(s: string, c: char): (parts: seq<string>)
    ensures |parts| >= 1
    ensures forall j :: 0 <= j < |parts| ==> c !in parts[j]
    decreases |s|
  {
    match IndexOf(s, c)
    case None => [s]
    case Some(k) => [s[..k]] + Split(s[k + 1..], c)
  }

  function Join(parts: seq<string>, c: char): string
    requires |parts| >= 1
  {
    if |parts| == 1 then parts[0] else parts[0] + [c] + Join(parts[1..], c)
  }

  /** The strings in order, with the empty ones dropped. */
  function NonEmpty(parts: seq<string>): (r: seq<string>)
    ensures forall j :: 0 <= j < |r| ==> r[j] != ""
  {
    if |parts| == 0 then []
    else (if parts[0] == "" then [] else [parts[0]]) + NonEmpty(parts[1..])
  }

  /** Dropping the empty strings distributes over concatenation. */
  lemma {:induction false} NonEmptyConcat(a: seq<string>, b: seq<string>)
    ensures NonEmpty(a + b) == NonEmpty(a) + NonEmpty(b)
    decreases |a|
  {
    if |a| > 0 {
      assert (a + b)[1..] == a[1..] + b;
      assert (a + b)[0] == a[0];
      NonEmptyConcat(a[1..], b);
    } else {
      assert a + b == b;
    }
  }

  /** Dropping the empty strings keeps every non-empty one, as often as it
      occurs, and nothing else. */
  lemma {:induction false} NonEmptyKeepsOthers(parts: seq<string>)
    ensures multiset(NonEmpty(parts)) == multiset(parts)["" := 0]
    decreases |parts|
  {
    if |parts| > 0 {
      NonEmptyKeepsOthers(parts[1..]);
      assert parts == [parts[0]] + parts[1..];
    }
  }

  /** Splitting loses nothing: joining the pieces gives the string back. */
  lemma {:induction false} SplitJoin(s: string, c: char)
    ensures Join(Split(s, c), c) == s
    decreases |s|
  {
    match IndexOf(s, c)
    case None =>
    case Some(k) =>
      var rest := s[k + 1..];
      SplitJoin(rest, c);
      JoinCons(s[..k], Split(rest, c), c);
      Reassemble(s, k, c);
  }

  lemma JoinCons(head: string, tail: seq<string>, c: char)
    requires |tail| >= 1
    ensures Join([head] + tail, c) == head + [c] + Join(tail, c)
  {
    assert ([head] + tail)[1..] == tail;
  }

  lemma Reassemble(s: string, k: nat, c: char)
    requires k < |s| && s[k] == c
    ensures s == s[..k] + [c] + s[k + 1..]
  {
  }

  /** A string without empty segments splits into non-empty pieces only. */
  lemma {:induction false} SplitWellSegmented(s: string)
    requires WellSegmented(s)
    ensures forall j :: 0 <= j < |Split(s, '/')| ==> Split(s, '/')[j] != ""
    decreases |s|
  {
    match IndexOf(s, '/')
    case None =>
    case Some(k) =>
      assert k > 0;
      assert k + 1 < |s|;
      var tail := s[k + 1..];
      assert tail[0] == s[k + 1] && tail[0] != '/';
      assert tail[|tail| - 1] == s[|s| - 1];
      forall m | 0 <= m < |tail| - 1
        ensures !(tail[m] == '/' && tail[m + 1] == '/')
      {
        assert tail[m] == s[k + 1 + m] && tail[m + 1] == s[k + 2 + m];
      }
      SplitWellSegmented(tail);
  }

  lemma {:induction false} NonEmptyKeepsAll(parts: seq<string>)
    requires forall j :: 0 <= j < |parts| ==> parts[j] != ""
    ensures NonEmpty(parts) == parts
    decreases |parts|
  {
    if |parts| > 0 {
      NonEmptyKeepsAll(parts[1..]);
    }
  }

  /** The locations of a `/dir/` path: the capture split at `/`, empty pieces
      dropped. */
  function PathLocations(pathname: string): Option<seq<string>> {
    match DirCapture(pathname)
    case None => None
    case Some(c) => Some(NonEmpty(Split(c, '/')))
  }

  /** Each location is one non-empty segment of the capture, in order: they
      join back into the capture, so dropping empty pieces drops nothing. */
  lemma PathLocationsAreSegments(pathname: string)
    requires DirCapture(pathname).Some?
    ensures var locs := PathLocations(pathname).value;
            && |locs| >= 1
            && Join(locs, '/') == DirCapture(pathname).value
            && forall j :: 0 <= j < |locs| ==> locs[j] != "" && '/' !in locs[j]
  {
    var c := DirCapture(pathname).value;
    DirCaptureShape(pathname);
    SplitWellSegmented(c);
    NonEmptyKeepsAll(Split(c, '/'));
    SplitJoin(c, '/');
  }

  // ---------------------------------------------------------------------------
  // Coordinates or place names

  /** A character of `[-\d.]`. */
  predicate IsCoordinateChar(c: char) {
    c == '-' || c == '.' || IsDigit(c)
  }

  predicate IsCoordinateText(s: string) {
    |s| > 0 && forall k :: 0 <= k < |s| ==> IsCoordinateChar(s[k])
  }

  /** The text is two non-empty runs of digits, minus signs and dots joined
      by one comma; it is split at the only comma there can be. */
  predicate IsCoordinatePair(s: string) {
    match IndexOf(s, ',')
    case None => false
    case Some(k) => IsCoordinateText(s[..k]) && IsCoordinateText(s[k + 1..])
  }

  /** The two texts of a coordinate pair, for `parseFloat`. */
  function CoordinateParts(s: string): (r: (string, string))
    requires IsCoordinatePair(s)
    ensures s == r.0 + "," + r.1
  {
    var k := IndexOf(s, ',').value;
    assert s == s[..k] + "," + s[k + 1..];
    (s[..k], s[k + 1..])
  }

  /** The pattern matches exactly the strings made of two non-empty runs of
      `[-\d.]` joined by one comma. */
  lemma CoordinatePairIff(s: string)
    ensures IsCoordinatePair(s) <==>
            exists a, b :: IsCoordinateText(a) && IsCoordinateText(b) && s == a + "," + b
  {
    if IsCoordinatePair(s) {
      var r := CoordinateParts(s);
      assert IsCoordinateText(r.0) && IsCoordinateText(r.1) && s == r.0 + "," + r.1;
    }
    if exists a, b :: IsCoordinateText(a) && IsCoordinateText(b) && s == a + "," + b {
      var a, b :| IsCoordinateText(a) && IsCoordinateText(b) && s == a + "," + b;
      assert s[|a|] == ',';
      assert forall k :: 0 <= k < |a| ==> s[k] == a[k] && s[k] != ',';
      var k := IndexOf(s, ',').value;
      assert k == |a|;
      assert s[..k] == a;
      assert s[k + 1..] == b;
    }
  }

  /** The waypoint for a coordinate pair or a place name, as both the path
      and the query fallback build it (the name of a pair is chosen by the
      caller). */
  function PointOrPlace(s: string, pairName: string): Waypoint {
    if IsCoordinatePair(s) then
      var parts := CoordinateParts(s);
      Waypoint(pairName, Location(ParsedFloat(parts.0), ParsedFloat(parts.1)), None, Some(s))
    else
      Waypoint(s, Location(Zero, Zero), None, Some(s))
  }

  /** `createWaypointFromString`: a waypoint for one location text, named by
      the default name when the text is a coordinate pair. */
  function CreateWaypointFromString(str: string, defaultName: string): (w: Waypoint)
    ensures w.address == Some(str)
    ensures w.name == if IsCoordinatePair(str) then defaultName else str
    ensures !IsCoordinatePair(str) ==> w.location == Location(Zero, Zero)
    ensures IsCoordinatePair(str) ==>
              w.location == Location(ParsedFloat(CoordinateParts(str).0), ParsedFloat(CoordinateParts(str).1))
  {
    PointOrPlace(str, defaultName)
  }

  /** The waypoint for the location at position `index` of the path. */
  function PathWaypoint(location: string, index: nat): Waypoint {
    PointOrPlace(location, "Point " + IntToString(index + 1))
  }

  /** The path's locations decoded and turned into waypoints, position by
      position; `None` when decoding one of them throws. */
  function PathWaypoints(locations: seq<string>, decode: string -> Option<string>): (r: Option<seq<Waypoint>>)
    ensures r.Some? <==> forall j :: 0 <= j < |locations| ==> decode(locations[j]).Some?
    ensures r.Some? ==>
              && |r.value| == |locations|
              && forall j :: 0 <= j < |locations| ==> r.value[j] == PathWaypoint(decode(locations[j]).value, j)
    decreases |locations|
  {
    if |locations| == 0 then Some([])
    else
      var n := |locations| - 1;
      match PathWaypoints(locations[..n], decode)
      case None => None
      case Some(front) =>
        match decode(locations[n])
        case None => None
        case Some(d) => Some(front + [PathWaypoint(d, n)])
  }

  // ---------------------------------------------------------------------------
  // Query parameters and the whole URL

  /** A query parameter's value: the value of the first entry with that
      name, or nothing when no entry has it. */
  function QueryGet(query: seq<(string, string)>, name: string): (r: Option<string>)
    ensures r.Some? <==> exists j :: 0 <= j < |query| && query[j].0 == name
    ensures r.Some? ==> exists j :: 0 <= j < |query| && query[j] == (name, r.value)
                                   && forall k :: 0 <= k < j ==> query[k].0 != name
  {
    if |query| == 0 then None
    else if query[0].0 == name then Some(query[0].1)
    else
      var r := QueryGet(query[1..], name);
      if r.Some? then
        var j :| 0 <= j < |query| - 1 && query[1..][j] == (name, r.value)
                 && forall k :: 0 <= k < j ==> query[1..][k].0 != name;
        assert forall k :: 0 <= k < j + 1 ==> query[k].0 != name by {
          forall k | 0 <= k < j + 1 ensures query[k].0 != name {
            if k > 0 { assert query[k] == query[1..][k - 1]; }
          }
        }
        assert query[j + 1] == (name, r.value);
        r
      else r
  }

  /** A query value a JavaScript `if` accepts: present and non-empty. */
  predicate Truthy(v: Option<string>) {
    v.Some? && v.value != ""
  }

  /** `extractWaypointsFromUrl`; `None` when decoding a path location throws.
      The `data` parameter is looked up but contributes nothing. */
  function ExtractWaypointsFromUrl(url: Url, decode: string -> Option<string>): (r: Option<seq<Waypoint>>)
  {
    var fromPath :=
      match PathLocations(url.pathname)
      case None => Some([])
      case Some(locations) => PathWaypoints(locations, decode);
    match fromPath
    case None => None
    case Some(waypoints) =>
      var saddr := QueryGet(url.query, "saddr");
      var daddr := QueryGet(url.query, "daddr");
      if Truthy(saddr) && Truthy(daddr) && |waypoints| == 0 then
        Some([CreateWaypointFromString(saddr.value, "Origin"), CreateWaypointFromString(daddr.value, "Destination")])
      else Some(waypoints)
  }

  /** The URL actually parsed: short links are expanded, and the original is
      kept when expansion fails. */
  function FullUrl(url: string, expand: string -> Option<string>): (r: string)
    ensures !Contains(url, ShortLinkHost) ==> r == url
    ensures Contains(url, ShortLinkHost) && expand(url).None? ==> r == url
    ensures Contains(url, ShortLinkHost) && expand(url).Some? ==> r == expand(url).value
  {
    if Contains(url, ShortLinkHost) then expand(url).GetOr(url) else url
  }

  /** `parseGoogleMapsLink`. `parseUrl` is the URL constructor (`None` where
      it throws), `decode` is `decodeURIComponent` and `expand` the short-link
      service (`None` where the request fails). */
  function ParseGoogleMapsLink(url: string, expand: string -> Option<string>,
                               parseUrl: string -> Option<Url>,
                               decode: string -> Option<string>): (r: Result<ParsedGoogleMapsLink, string>)
    ensures r.Failure? ==> r.error == FailureMessage
    ensures r.Success? <==>
              && parseUrl(FullUrl(url, expand)).Some?
              && ExtractWaypointsFromUrl(parseUrl(FullUrl(url, expand)).value, decode).Some?
              && |ExtractWaypointsFromUrl(parseUrl(FullUrl(url, expand)).value, decode).value| >= 2
    ensures r.Success? ==>
              var all := ExtractWaypointsFromUrl(parseUrl(FullUrl(url, expand)).value, decode).value;
              && r.value.origin == all[0]
              && r.value.destination == all[|all| - 1]
              && [r.value.origin] + r.value.waypoints + [r.value.destination] == all
              && r.value.rawUrl == url
  {
    match parseUrl(FullUrl(url, expand))
    case None => Failure(FailureMessage)
    case Some(parsed) =>
      match ExtractWaypointsFromUrl(parsed, decode)
      case None => Failure(FailureMessage)
      case Some(all) =>
        if |all| < 2 then Failure(FailureMessage)
        else
          var r := ParsedGoogleMapsLink(all[0], all[|all| - 1], all[1..|all| - 1], url);
          assert [r.origin] + r.waypoints + [r.destination] == all;
          Success(r)
  }

  lemma {:induction false} QueryGetIgnoresOtherNames(query: seq<(string, string)>, extra: (string, string), name: string)
    requires extra.0 != name
    ensures QueryGet(query + [extra], name) == QueryGet(query, name)
    decreases |query|
  {
    if |query| > 0 {
      assert (query + [extra])[1..] == query[1..] + [extra];
      QueryGetIgnoresOtherNames(query[1..], extra, name);
    }
  }

  /** Where the waypoints come from: a matching `/dir/` path always yields at
      least one location, so then the path alone decides and the query is
      never read; without one, `saddr` and `daddr` give exactly an origin and
      a destination when both are non-empty, and nothing otherwise. */
  lemma WaypointSources(url: Url, decode: string -> Option<string>)
    ensures DirCapture(url.pathname).Some? ==>
              ExtractWaypointsFromUrl(url, decode) == PathWaypoints(PathLocations(url.pathname).value, decode)
              && |PathLocations(url.pathname).value| >= 1
    ensures DirCapture(url.pathname).None? ==>
              var saddr := QueryGet(url.query, "saddr");
              var daddr := QueryGet(url.query, "daddr");
              ExtractWaypointsFromUrl(url, decode) ==
              if Truthy(saddr) && Truthy(daddr) then
                Some([CreateWaypointFromString(saddr.value, "Origin"), CreateWaypointFromString(daddr.value, "Destination")])
              else Some([])
  {
    if DirCapture(url.pathname).Some? {
      PathLocationsAreSegments(url.pathname);
    }
  }

  /** A `data` parameter changes nothing. */
  lemma DataParameterIgnored(url: Url, decode: string -> Option<string>, data: string)
    ensures ExtractWaypointsFromUrl(url.(query := url.query + [("data", data)]), decode)
            == ExtractWaypointsFromUrl(url, decode)
  {
    QueryGetIgnoresOtherNames(url.query, ("data", data), "saddr");
    QueryGetIgnoresOtherNames(url.query, ("data", data), "daddr");
  }

  /** A link without the short-link host is parsed as it is: the expansion
      service is never consulted. */
  lemma LongLinksNotExpanded(url: string, expand1: string -> Option<string>, expand2: string -> Option<string>,
                             parseUrl: string -> Option<Url>, decode: string -> Option<string>)
    requires !Contains(url, ShortLinkHost)
    ensures ParseGoogleMapsLink(url, expand1, parseUrl, decode) == ParseGoogleMapsLink(url, expand2, parseUrl, decode)
  {
  }
}
