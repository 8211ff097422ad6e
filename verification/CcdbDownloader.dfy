// The CCDB downloader: one request retried over redirect locations and hosts, and a queue that keeps
// the number of transfers under way below a limit.

module CcdbDownloader {

  predicate Contains(s: string, t: string) {
    |t| <= |s| && (s[..|t|] == t || (s != [] && Contains(s[1..], t)))
  }

  /** Content that is fetched by a callback and not by a transfer. */
  predicate IsLocal(location: string) { Contains(location, "alien:/") || Contains(location, "file:/") }

  ghost predicate Occurs(t: string, s: string) { exists before, after :: s == before + t + after }

  lemma {:induction false} ContainsIs(s: string, t: string)
    ensures Contains(s, t) <==> Occurs(t, s)
  {
    if Contains(s, t) {
      if s[..|t|] == t {
        assert s == [] + t + s[|t|..];
      } else {
        ContainsIs(s[1..], t);
        var before, after :| s[1..] == before + t + after;
        assert s == ([s[0]] + before) + t + after;
      }
    }
    if Occurs(t, s) {
      var before, after :| s == before + t + after;
      if before == [] {
        assert s[..|t|] == t;
      } else {
        assert s[1..] == before[1..] + t + after;
        ContainsIs(s[1..], t);
      }
    }
  }

  /** Where the content of a location is found locally. */
  lemma LocalMeans(location: string)
    ensures IsLocal(location) <==> Occurs("alien:/", location) || Occurs("file:/", location)
  {
    ContainsIs(location, "alien:/");
    ContainsIs(location, "file:/");
  }

  lemma EmptyNotLocal()
    ensures !IsLocal("")
  {}

  ghost predicate Distinct(s: seq<string>) {
    forall i, j :: 0 <= i < j < |s| ==> s[i] != s[j]
  }

  /** The strings of offers that are not in known, each once, in order of first appearance. */
  function Fresh(offers: seq<string>, known: seq<string>): seq<string> {
    if offers == [] then []
    else
      var l, before := offers[|offers| - 1], Fresh(offers[..|offers| - 1], known);
      if l in known || l in before then before else before + [l]
  }

  lemma {:induction false} FreshIs(offers: seq<string>, known: seq<string>)
    ensures Distinct(Fresh(offers, known))
    ensures forall l :: l in Fresh(offers, known) <==> l in offers && l !in known
  {
    if offers != [] {
      var before := offers[..|offers| - 1];
      FreshIs(before, known);
      forall l
        ensures l in offers <==> l in before || l == offers[|offers| - 1]
      {
        assert offers == before + [offers[|offers| - 1]];
      }
    }
  }

  /** They come in the order in which they are first offered. */
  lemma {:induction false} FreshInOrder(offers: seq<string>, known: seq<string>, i: nat, j: nat) returns (x: nat)
    requires i < j < |Fresh(offers, known)|
    ensures x < |offers| && offers[x] == Fresh(offers, known)[i] && Fresh(offers, known)[j] !in offers[..x + 1]
  {
    var before := offers[..|offers| - 1];
    FreshIs(offers, known);
    FreshIs(before, known);
    if j < |Fresh(before, known)| {
      x := FreshInOrder(before, known, i, j);
      assert offers[..x + 1] == before[..x + 1];
    } else {
      var first := Fresh(before, known)[i];
      assert first in Fresh(before, known);
      x :| 0 <= x < |before| && before[x] == first;
      assert forall l :: l in offers[..x + 1] ==> l in before;
    }
  }

  /** Fresh locations go in front of those not yet tried. */
  function Inserted(locations: seq<string>, at: nat, more: seq<string>): seq<string>
    requires at <= |locations|
  {
    locations[..at] + more + locations[at..]
  }

  lemma InsertedIs(locations: seq<string>, at: nat, offers: seq<string>)
    requires at <= |locations| && Distinct(locations)
    ensures var r := Inserted(locations, at, Fresh(offers, locations));
            && Distinct(r) && r[..at] == locations[..at]
            && forall l :: l in r <==> l in locations || l in offers
  {
    FreshIs(offers, locations);
    var more := Fresh(offers, locations);
    var r := Inserted(locations, at, more);
    forall i, j | 0 <= i < j < |r|
      ensures r[i] != r[j]
    {
      SplitAt(locations, at, more, i);
      SplitAt(locations, at, more, j);
    }
    forall l
      ensures l in r <==> l in locations || l in offers
    {
      assert locations == locations[..at] + locations[at..];
    }
  }

  // Where an element of the longer list comes from.
  lemma SplitAt(locations: seq<string>, at: nat, more: seq<string>, i: nat)
    requires at <= |locations| && i < |locations| + |more|
    ensures Inserted(locations, at, more)[i]
         == if i < at then locations[i] else if i < at + |more| then more[i - at] else locations[i - |more|]
    ensures at <= i < at + |more| ==> Inserted(locations, at, more)[i] in more
    ensures !(at <= i < at + |more|) ==> Inserted(locations, at, more)[i] in locations
  {}

  /** The locations of one header that are not yet known. */
  method AddFresh(header: seq<string>, locations: seq<string>, sofar: seq<string>, ghost before: seq<string>)
    returns (newLocations: seq<string>)
    requires sofar == Fresh(before, locations)
    ensures newLocations == Fresh(before + header, locations)
  {
    newLocations := sofar;
    ghost var done := before;
    assert header[0..] == header;
    for i := 0 to |header|
      invariant newLocations == Fresh(done, locations) && done + header[i..] == before + header
    {
      hide *;
      TakeOne(done, header, i);
      FreshNext(done, header[i], locations);
      done := done + [header[i]];
      if header[i] !in locations {
        if header[i] !in newLocations {
          newLocations := newLocations + [header[i]];
        }
      }
    }
    assert header[|header|..] == [] && done + [] == done;
  }

  lemma TakeOne(done: seq<string>, header: seq<string>, i: nat)
    requires i < |header|
    ensures done + header[i..] == done + [header[i]] + header[i + 1..]
  {
    assert header[i..] == [header[i]] + header[i + 1..];
  }

  lemma FreshNext(offers: seq<string>, l: string, known: seq<string>)
    ensures Fresh(offers + [l], known)
         == if l in known || l in Fresh(offers, known) then Fresh(offers, known) else Fresh(offers, known) + [l]
  {
    assert (offers + [l])[..|offers|] == offers;
  }

  /** What a finished transfer reports. */
  datatype Outcome = Outcome(curlCode: int, httpCode: int, location: seq<string>, contentLocation: seq<string>)

  /** The answer brought the content, or said that the caller has it already. */
  predicate Served(o: Outcome) { o.curlCode == 0 && (200 <= o.httpCode < 300 || o.httpCode == 304) }

  predicate IsRedirect(o: Outcome) { 300 <= o.httpCode < 400 && o.httpCode != 304 }

  ghost predicate NoneServed(reports: seq<Outcome>) { forall k :: 0 <= k < |reports| ==> !Served(reports[k]) }

  // ---------------------------------------------------------------------------------------------
  // One request.

  class Request {
    const hosts: seq<string>
    const optionLists: nat // one header list per host when scheduled through the API
    const prepare: (string, string) -> string // a location made absolute for a host
    const local: string -> bool // the callback for local content
    const address: string -> string // the request as addressed to a host
    var hostInd: nat
    var locInd: nat
    var locations: seq<string>
    var url: string
    var headerList: nat
    // What has happened so far.
    ghost var offered: set<string>
    ghost var redirects: nat
    ghost var transfers: nat
    ghost var taken: seq<string> // the locations fetched so far, in order
    ghost var finished: bool
    ghost var content: bool
    ghost var reports: seq<Outcome> // of the transfers that are over

    ghost predicate Valid()
      reads `hostInd, `locInd, `locations, `taken, `offered, `redirects, `transfers
    {
      && |hosts| > 0 && hostInd <= |hosts|
      && locInd <= |locations| && Distinct(locations) && taken == locations[..locInd]
      && (forall l :: l in locations ==> l in offered)
      && redirects <= locInd && transfers <= 1 + hostInd + redirects
      && (hostInd == |hosts| ==> transfers <= hostInd + redirects)
    }

    /** The request is over: with the content exactly if the last transfer brought it or the callback found it,
        and otherwise given up. No transfer before the last brought it. */
    ghost predicate Over()
      reads this
    {
      && Valid() && finished && |reports| == transfers >= 1 && NoneServed(reports[..|reports| - 1])
      && (Served(reports[|reports| - 1]) ==> content)
      && (content ==> Served(reports[|reports| - 1]) || LocallyRetrieved())
      && (content || GivenUp())
    }

    /** A transfer is on its way or waiting to be started; none so far has brought the content. */
    ghost predicate Underway()
      reads this
    {
      Sending() && transfers == |reports| + 1 && NoneServed(reports)
    }

    /** The address is that of the host or of the last location taken, the header list that of the host. */
    ghost predicate Sending()
      reads `hostInd, `locInd, `locations, `taken, `offered, `redirects, `transfers, `finished, `headerList, `url
    {
      && Valid() && !finished && hostInd < |hosts| && transfers == 1 + hostInd + redirects
      && (optionLists == |hosts| ==> headerList == hostInd)
      && (url == address(hosts[hostInd]) || (0 < locInd && url == prepare(locations[locInd - 1], hosts[hostInd])))
    }

    // What taking locations comes to.

    /** The location was to be found locally, and was not. */
    ghost predicate FailedLocally(h: nat, k: nat)
      requires h < |hosts| && k < |locations|
      reads `locations
    {
      var a := prepare(locations[k], hosts[h]);
      IsLocal(a) && !local(a)
    }

    /** The locations from here to there are taken for host h, all but the last without success; then one is
        to be transferred, or found locally, or has an empty address, or there is none left. */
    ghost predicate Follows(h: nat, from: nat, to: nat, rescheduled: bool, content: bool)
      reads `locations
    {
      && h < |hosts| && from < to <= |locations| && (forall k :: from <= k < to - 1 ==> FailedLocally(h, k))
      && var a := prepare(locations[to - 1], hosts[h]);
         && !(rescheduled && content)
         && if rescheduled then a != "" && !IsLocal(a)
            else if content then IsLocal(a) && local(a)
            else a == "" || (IsLocal(a) && !local(a) && to == |locations|)
    }

    /** What one answer comes to. Locations are taken only when it did not bring the content. After a redirect
        they are taken once more if the first time ended at an empty address, or if it found content locally
        although the transfer had failed. */
    ghost predicate Reaction(h: nat, o: Outcome, from: nat, to: nat, rescheduled: bool, content: bool)
      reads `locations
    {
      if Served(o) then to == from && !rescheduled && content
      else if from >= |locations| then to == from && !rescheduled && !content
      else if !IsRedirect(o) then Follows(h, from, to, rescheduled, content)
      else exists mid: nat, r: bool, c: bool ::
             Follows(h, from, mid, r, c) && FollowsOn(h, o.curlCode == 0, mid, r, c, to, rescheduled, content)
    }

    ghost predicate FollowsOn(h: nat, clean: bool, mid: nat, r: bool, c: bool, to: nat, rescheduled: bool,
                              content: bool)
      reads `locations
    {
      if r || (c && clean) || mid == |locations| then to == mid && rescheduled == r && content == (c && clean)
      else Follows(h, mid, to, rescheduled, content)
    }

    /** Where taking locations ends, and how, is determined. */
    lemma FollowsUnique(h: nat, from: nat, to: nat, r: bool, c: bool, to': nat, r': bool, c': bool)
      requires Follows(h, from, to, r, c) && Follows(h, from, to', r', c')
      ensures to == to' && r == r' && c == c'
    {
      EmptyNotLocal();
      hide IsLocal;
      assert to < to' ==> FailedLocally(h, to - 1);
      assert to' < to ==> FailedLocally(h, to' - 1);
    }

    /** Unless an address comes out empty, or local content is overruled, locations are taken just once, in
        order, until one is transferred or found. */
    lemma PlainReaction(h: nat, o: Outcome, from: nat, to: nat, rescheduled: bool, content: bool)
      requires Reaction(h, o, from, to, rescheduled, content) && h < |hosts| && NoEmptyAddress()
      requires !Served(o) && from < |locations| && (o.curlCode == 0 || !IsRedirect(o))
      ensures Follows(h, from, to, rescheduled, content)
    {
      hide IsLocal;
      if IsRedirect(o) {
        var mid: nat, r: bool, c: bool :|
          Follows(h, from, mid, r, c) && FollowsOn(h, o.curlCode == 0, mid, r, c, to, rescheduled, content);
        assert locations[mid - 1] in locations && hosts[h] in hosts;
      }
    }

    /** What became of the request after the answer o: the next transfer is a redirect for the same host, or
        the next host's own address, or there is none because the content is there or the hosts are used up. */
    ghost predicate ReactedTo(h: nat, o: Outcome, from: nat, rescheduled: bool, content: bool)
      reads `locations, `locInd, `hostInd, `url
    {
      exists r, c :: Reaction(h, o, from, locInd, r, c) && Became(h, r, c, rescheduled, content)
    }

    ghost predicate Became(h: nat, r: bool, c: bool, rescheduled: bool, content: bool)
      reads `locations, `locInd, `hostInd, `url
    {
      if r then
        && rescheduled && !content && hostInd == h < |hosts| && 0 < locInd <= |locations|
        && url == prepare(locations[locInd - 1], hosts[h])
      else if c then !rescheduled && content && hostInd == h
      else !content && hostInd == h + 1 && (rescheduled <==> hostInd < |hosts|)
           && (rescheduled ==> url == address(hosts[hostInd]))
    }

    constructor (h: seq<string>, lists: nat, p: (string, string) -> string, callback: string -> bool,
                 a: string -> string)
      requires |h| > 0
      ensures Underway() && hosts == h && optionLists == lists && transfers == 1 && locations == [] && offered == {}
    {
      hosts, optionLists, prepare, local, address := h, lists, p, callback, a;
      hostInd, locInd, locations := 0, 0, [];
      url, headerList := a(h[0]), 0;
      offered, redirects, transfers, taken := {}, 0, 1, [];
      finished, content, reports := false, false, [];
    }

    /** Locations from both headers, each at most once and none that is already listed. */
    method UpdateLocations(location: seq<string>, contentLocation: seq<string>)
      requires Valid()
      modifies `locations, `offered
      ensures Valid()
      ensures locations == Inserted(old(locations), locInd, Fresh(location + contentLocation, old(locations)))
      ensures locations[..locInd] == old(locations[..locInd])
      ensures offered == old(offered) + (set l | l in location + contentLocation)
      ensures old(Sending()) ==> Sending()
    {
      var offers := location + contentLocation;
      InsertedIs(locations, locInd, offers);
      var newLocations := AddFresh(location, locations, [], []);
      assert [] + location == location;
      newLocations := AddFresh(contentLocation, locations, newLocations, location);
      locations := Inserted(locations, locInd, newLocations);
      offered := offered + (set l | l in offers);
    }

    /** The next location made absolute, or nothing when all have been taken. */
    method GetNewLocation() returns (newUrl: string)
      requires Valid() && hostInd < |hosts|
      modifies `locInd, `taken
      ensures Valid() && old(taken) <= taken && old(locInd) <= locInd <= |locations|
      ensures old(locInd) < |locations| ==>
                locInd == old(locInd) + 1 && newUrl == prepare(locations[old(locInd)], hosts[hostInd])
      ensures old(locInd) == |locations| ==> locInd == old(locInd) && newUrl == ""
    {
      if locInd < |locations| {
        newUrl := prepare(locations[locInd], hosts[hostInd]);
        taken := taken + [locations[locInd]];
        locInd := locInd + 1;
      } else {
        newUrl := "";
      }
    }

    /** Take locations until one is retrieved locally or can be transferred. */
    method FollowRedirect() returns (rescheduled: bool, contentRetrieved: bool)
      requires Valid() && hostInd < |hosts| && locInd < |locations|
      requires transfers == hostInd + redirects + 1
      modifies `locInd, `url, `redirects, `transfers, `taken
      ensures Valid() && transfers == hostInd + redirects + 1 && old(taken) <= taken
      ensures Follows(hostInd, old(locInd), locInd, rescheduled, contentRetrieved)
      ensures redirects == old(redirects) + if rescheduled then 1 else 0
      ensures url == if rescheduled then prepare(locations[locInd - 1], hosts[hostInd]) else old(url)
    {
      EmptyNotLocal();
      RedirectsTaken();
      hide Distinct, IsLocal, FailedLocally, Valid;
      rescheduled, contentRetrieved := false, false;
      var newLocation := GetNewLocation();
      assert Taking(old(locInd), newLocation);
      hide Taking, LocallyRetrieved;
      while !contentRetrieved && IsLocal(newLocation)
        invariant Valid() && old(locInd) < locInd <= |locations| && old(taken) <= taken && redirects == old(redirects)
        invariant transfers == hostInd + redirects + 1
        invariant Taking(old(locInd), newLocation) && url == old(url)
        invariant contentRetrieved ==> LocallyRetrieved() && newLocation != ""
        decreases |locations| - locInd, newLocation != "", !contentRetrieved
      {
        if local(newLocation) {
          contentRetrieved := true;
          TakenLocally(old(locInd), newLocation);
        } else {
          newLocation := NextAfter(old(locInd), newLocation);
        }
      }
      TakingEnds(old(locInd), newLocation, contentRetrieved);
      if !contentRetrieved && newLocation != "" {
        rescheduled := true;
        Reschedule(newLocation, old(redirects), old(locInd));
      }
    }

    /** The next location after one that was not found locally. */
    method NextAfter(ghost from: nat, failed: string) returns (newLocation: string)
      requires Valid() && Taking(from, failed) && IsLocal(failed) && !local(failed)
      modifies `locInd, `taken
      ensures Valid() && Taking(from, newLocation) && old(taken) <= taken && locInd <= |locations|
      ensures old(locInd) < locInd || (old(locInd) == locInd && newLocation == "")
    {
      EmptyNotLocal();
      hide Valid, IsLocal, FailedLocally;
      Failed(hostInd, locInd - 1, failed);
      newLocation := GetNewLocation();
    }

    lemma TakenLocally(from: nat, newLocation: string)
      requires Taking(from, newLocation) && IsLocal(newLocation) && local(newLocation)
      ensures LocallyRetrieved() && newLocation != ""
    {
      EmptyNotLocal();
    }

    /** One more transfer. */
    method Reschedule(newLocation: string, ghost before: nat, ghost from: nat)
      requires Valid() && transfers == hostInd + redirects + 1 && hostInd < |hosts|
      requires redirects == before <= from < locInd
      modifies `url, `redirects, `transfers
      ensures Valid() && transfers == hostInd + redirects + 1 && redirects == before + 1 && url == newLocation
    {
      url := newLocation;
      redirects, transfers := redirects + 1, transfers + 1;
    }

    lemma RedirectsTaken()
      requires Valid()
      ensures redirects <= locInd <= |locations|
    {}

    lemma Failed(h: nat, k: nat, a: string)
      requires h < |hosts| && k < |locations| && IsLocal(a) && !local(a)
      ensures a == prepare(locations[k], hosts[h]) ==> FailedLocally(h, k)
    {}

    lemma TakingEnds(from: nat, newLocation: string, content: bool)
      requires Taking(from, newLocation) && (content ==> LocallyRetrieved() && newLocation != "")
      requires content || !IsLocal(newLocation)
      ensures Follows(hostInd, from, locInd, !content && newLocation != "", content)
      ensures newLocation != "" ==> newLocation == prepare(locations[locInd - 1], hosts[hostInd])
    {
      hide IsLocal;
    }

    /** The locations taken so far have failed, all but the one at hand. */
    ghost predicate Taking(from: nat, newLocation: string)
      reads `locations, `locInd, `hostInd
    {
      && hostInd < |hosts| && from < locInd <= |locations|
      && (forall k :: from <= k < locInd - 1 ==> FailedLocally(hostInd, k))
      && (newLocation == prepare(locations[locInd - 1], hosts[hostInd])
          || (newLocation == "" && locInd == |locations| && FailedLocally(hostInd, locInd - 1)))
    }

    /** The last location taken was retrieved by the callback. */
    ghost predicate LocallyRetrieved()
      reads `locInd, `locations, `hostInd
    {
      && 0 < locInd <= |locations| && hostInd < |hosts|
      && var address := prepare(locations[locInd - 1], hosts[hostInd]);
         IsLocal(address) && local(address)
    }

    /** No location becomes the empty string when made absolute. */
    ghost predicate NoEmptyAddress()
      reads `locations
    {
      forall l, h :: l in locations && h in hosts ==> prepare(l, h) != ""
    }

    /** Connect to the next host: its address and its header list. */
    method TryNewHost()
      requires Valid() && !finished && hostInd < |hosts| && transfers == hostInd + redirects
      modifies `url, `headerList, `transfers
      ensures Sending() && transfers == old(transfers) + 1 && url == address(hosts[hostInd])
      ensures headerList == if hostInd < optionLists then hostInd else old(headerList)
    {
      url := address(hosts[hostInd]);
      if hostInd < optionLists {
        headerList := hostInd;
      }
      transfers := transfers + 1;
    }

    /** Out of locations: the next host, if there is one. */
    method NextHost() returns (rescheduled: bool)
      requires Valid() && !finished && hostInd < |hosts| && transfers == hostInd + redirects + 1
      requires NoEmptyAddress() ==> locInd == |locations|
      modifies `hostInd, `url, `headerList, `transfers
      ensures hostInd == old(hostInd) + 1 && (rescheduled <==> hostInd < |hosts|)
      ensures rescheduled ==> Sending() && transfers == old(transfers) + 1 && url == address(hosts[hostInd])
      ensures !rescheduled ==> Valid() && GivenUp() && transfers == old(transfers)
    {
      hide Distinct;
      hostInd := hostInd + 1;
      rescheduled := hostInd < |hosts|;
      if rescheduled {
        TryNewHost();
      }
    }

    /** How a request ends without content. */
    ghost predicate GivenUp()
      reads `locInd, `locations, `hostInd
    {
      hostInd == |hosts| && (NoEmptyAddress() ==> locInd == |locations|)
    }

    // What the answer itself says: the content is there, or where else to look.
    method ReactToCode(o: Outcome) returns (rescheduled: bool, contentRetrieved: bool)
      requires Sending()
      modifies `locInd, `url, `redirects, `transfers, `taken
      ensures Valid() && transfers == hostInd + redirects + 1 && old(taken) <= taken
      ensures redirects == old(redirects) + if rescheduled then 1 else 0
      ensures Reaction(hostInd, o, old(locInd), locInd, rescheduled, contentRetrieved)
      ensures rescheduled ==>
                Sending() && 0 < locInd <= |locations| && url == prepare(locations[locInd - 1], hosts[hostInd])
    {
      RedirectsTaken();
      hide Distinct, IsLocal, FailedLocally, Valid;
      rescheduled, contentRetrieved := false, false;
      ghost var mid, r, c := locInd, false, false;
      if 200 <= o.httpCode < 400 {
        if o.httpCode == 304 {
          contentRetrieved := true;
        } else if 300 <= o.httpCode < 400 && locInd < |locations| {
          rescheduled, contentRetrieved := FollowRedirect();
          mid, r, c := locInd, rescheduled, contentRetrieved;
        } else if 200 <= o.httpCode < 300 {
          contentRetrieved := true; // can be overruled by the following check
        }
      }
      if o.curlCode != 0 {
        contentRetrieved := false;
      }
      if !rescheduled && !contentRetrieved {
        if locInd < |locations| {
          rescheduled, contentRetrieved := FollowRedirect();
        }
      }
      hide Follows;
      assert IsRedirect(o) && old(locInd) < |locations| ==>
          Follows(hostInd, old(locInd), mid, r, c)
          && FollowsOn(hostInd, o.curlCode == 0, mid, r, c, locInd, rescheduled, contentRetrieved);
    }

    lemma ReactionMeans(h: nat, o: Outcome, from: nat, r: bool, c: bool)
      requires Reaction(h, o, from, locInd, r, c) && h == hostInd < |hosts| && from <= |locations|
      ensures from <= locInd && !(r && c)
      ensures c ==> Served(o) || LocallyRetrieved()
      ensures !r && !c && NoEmptyAddress() ==> locInd == |locations|
    {
      hide IsLocal;
      assert !Served(o) && from < |locations| && 0 < locInd <= |locations| ==>
          locations[locInd - 1] in locations && hosts[h] in hosts;
    }

    /** The reaction to a finished transfer: another transfer, or the end of the request. An answer that brought
        the content ends it. Otherwise the locations not yet taken are tried, then the next host, and then the
        request is given up. */
    method React(o: Outcome) returns (rescheduled: bool, contentRetrieved: bool)
      requires Underway()
      modifies this
      ensures if rescheduled then Underway() && transfers == old(transfers) + 1
              else Over() && content == contentRetrieved
      ensures Served(o) ==> !rescheduled && contentRetrieved && locInd == old(locInd) && hostInd == old(hostInd)
      ensures ReactedTo(old(hostInd), o, old(locInd), rescheduled, contentRetrieved)
      ensures old(taken) <= taken && Distinct(taken)
      ensures locations == Inserted(old(locations), old(locInd), Fresh(o.location + o.contentLocation, old(locations)))
      ensures offered == old(offered) + (set l | l in o.location + o.contentLocation)
      ensures reports == old(reports) + [o]
      ensures !rescheduled ==> transfers == old(transfers)
    {
      hide Inserted, Fresh, Distinct, LocallyRetrieved, GivenUp, ReactedTo, Valid;
      UpdateLocations(o.location, o.contentLocation);
      rescheduled, contentRetrieved := Decide(o);
      TakenOnce();
      reports := reports + [o];
      if !rescheduled {
        finished, content := true, contentRetrieved;
      }
    }

    // The reaction, once the new locations are known.
    method Decide(o: Outcome) returns (rescheduled: bool, contentRetrieved: bool)
      requires Sending()
      modifies `locInd, `url, `redirects, `transfers, `taken, `hostInd, `headerList
      ensures if rescheduled then Sending() && transfers == old(transfers) + 1
              else Valid() && transfers == old(transfers) && (contentRetrieved || GivenUp())
      ensures contentRetrieved ==> Served(o) || LocallyRetrieved()
      ensures Served(o) ==> !rescheduled && contentRetrieved && locInd == old(locInd) && hostInd == old(hostInd)
      ensures ReactedTo(old(hostInd), o, old(locInd), rescheduled, contentRetrieved)
      ensures old(taken) <= taken
    {
      RedirectsTaken();
      hide Distinct, IsLocal, LocallyRetrieved, NoEmptyAddress, GivenUp, Follows, FollowsOn, Valid;
      rescheduled, contentRetrieved := ReactToCode(o);
      ghost var r, c := rescheduled, contentRetrieved;
      ReactionMeans(hostInd, o, old(locInd), r, c);
      if !rescheduled && !contentRetrieved {
        rescheduled := NextHost();
      }
      assert Reaction(old(hostInd), o, old(locInd), locInd, r, c);
      assert Became(old(hostInd), r, c, rescheduled, contentRetrieved);
    }

    /** No location has been fetched twice. */
    lemma TakenOnce()
      requires Valid()
      ensures Distinct(taken)
    {}
  }

  // ---------------------------------------------------------------------------------------------
  // Many requests.

  /** A completion counter, shared by the requests that were scheduled together. */
  class Counter {
    var left: nat
    constructor ()
      ensures left == 0
    {
      left := 0;
    }
  }

  /** One scheduled handle. A blocking transfer has no request data and is never retried. */
  class Job {
    const counter: Counter
    const request: Request?
    constructor (c: Counter, r: Request?)
      ensures counter == c && request == r
    {
      counter, request := c, r;
    }
  }

  ghost function Pending(unfinished: set<Job>, c: Counter): set<Job> {
    set j | j in unfinished && j.counter == c
  }

  // The books: handles in use are the active ones and within the limit; what is queued is not active;
  // the two together are the unfinished ones.
  ghost predicate Booked(inUse: nat, limit: nat, queue: seq<Job>, active: set<Job>, unfinished: set<Job>) {
    && inUse == |active| <= limit
    && (forall x, y :: 0 <= x < y < |queue| ==> queue[x] != queue[y])
    && (forall j :: j in queue ==> j !in active)
    && unfinished == active + set j | j in queue
  }

  lemma StartNext(inUse: nat, limit: nat, queue: seq<Job>, active: set<Job>, unfinished: set<Job>)
    requires Booked(inUse, limit, queue, active, unfinished) && |queue| > 0 && inUse < limit
    ensures Booked(inUse + 1, limit, queue[1..], active + {queue[0]}, unfinished)
  {
    assert queue == [queue[0]] + queue[1..];
  }

  lemma Enqueue(inUse: nat, limit: nat, queue: seq<Job>, active: set<Job>, unfinished: set<Job>, j: Job)
    requires Booked(inUse, limit, queue, active, unfinished) && j !in unfinished
    ensures Booked(inUse, limit, queue + [j], active, unfinished + {j})
  {
    var longer := queue + [j];
    assert (set x | x in longer) == (set x | x in queue) + {j};
    assert forall x :: x in queue ==> x in unfinished;
  }

  lemma TakeOff(inUse: nat, limit: nat, queue: seq<Job>, active: set<Job>, unfinished: set<Job>, j: Job)
    requires Booked(inUse, limit, queue, active, unfinished) && j in active
    ensures inUse >= 1 && j in unfinished && Booked(inUse - 1, limit, queue, active - {j}, unfinished - {j})
  {}

  lemma PendingChange(unfinished: set<Job>, j: Job)
    ensures j !in unfinished ==> |Pending(unfinished + {j}, j.counter)| == |Pending(unfinished, j.counter)| + 1
    ensures j in unfinished ==> |Pending(unfinished - {j}, j.counter)| == |Pending(unfinished, j.counter)| - 1
  {
    if j !in unfinished {
      assert Pending(unfinished + {j}, j.counter) == Pending(unfinished, j.counter) + {j};
    } else {
      assert Pending(unfinished - {j}, j.counter) == Pending(unfinished, j.counter) - {j};
    }
  }

  /** A request only ever changes its own counter. */
  lemma OtherCounters(unfinished: set<Job>, j: Job, c: Counter)
    requires c != j.counter
    ensures Pending(unfinished + {j}, c) == Pending(unfinished, c) == Pending(unfinished - {j}, c)
  {}

  /** Every counter says how many of its requests are unfinished. */
  ghost predicate CountersRight(unfinished: set<Job>, counters: set<Counter>)
    reads counters
  {
    && (forall j :: j in unfinished ==> j.counter in counters)
    && forall c :: c in counters ==> c.left == |Pending(unfinished, c)|
  }

  /** Every unfinished request is under way and nobody else's. */
  ghost predicate RequestsRight(unfinished: set<Job>, requests: set<Request>)
    reads requests
  {
    && (forall j :: j in unfinished && j.request != null ==> j.request in requests && j.request.Underway())
    && forall j, k :: j in unfinished && k in unfinished && j != k && j.request != null ==> j.request != k.request
  }

  /** A scheduled request is counted. */
  method CountUp(j: Job, ghost unfinished: set<Job>, ghost counters: set<Counter>)
    requires CountersRight(unfinished, counters) && j !in unfinished && (j.counter in counters || j.counter.left == 0)
    modifies j.counter
    ensures j.counter.left == old(j.counter.left) + 1 && CountersRight(unfinished + {j}, counters + {j.counter})
  {
    PendingChange(unfinished, j);
    assert j.counter !in counters ==> Pending(unfinished, j.counter) == {};
    forall c: Counter | c != j.counter
      ensures Pending(unfinished + {j}, c) == Pending(unfinished, c)
    {
      OtherCounters(unfinished, j, c);
    }
    j.counter.left := j.counter.left + 1;
  }

  /** A finished request is counted down. */
  method CountDown(j: Job, ghost unfinished: set<Job>, ghost counters: set<Counter>)
    requires CountersRight(unfinished, counters) && j in unfinished
    modifies j.counter
    ensures j.counter.left == old(j.counter.left) - 1 && CountersRight(unfinished - {j}, counters)
  {
    PendingChange(unfinished, j);
    forall c: Counter | c != j.counter
      ensures Pending(unfinished - {j}, c) == Pending(unfinished, c)
    {
      OtherCounters(unfinished, j, c);
    }
    j.counter.left := j.counter.left - 1;
  }

  /** The reaction of one request leaves all others as they are. */
  method ReactFor(j: Job, o: Outcome, ghost unfinished: set<Job>, ghost requests: set<Request>)
    returns (rescheduled: bool)
    requires RequestsRight(unfinished, requests) && j in unfinished
    modifies j.request
    ensures RequestsRight(if rescheduled then unfinished else unfinished - {j}, requests)
    ensures rescheduled ==>
              j.request != null && j.request.Underway() && j.request.transfers == old(j.request.transfers) + 1
    ensures j.request != null ==> old(j.request.taken) <= j.request.taken && Distinct(j.request.taken)
    ensures j.request != null ==>
              j.request.offered == old(j.request.offered) + (set l | l in o.location + o.contentLocation)
    ensures j.request != null && !rescheduled ==> j.request.Over()
    ensures j.request != null ==> j.request.reports == old(j.request.reports) + [o]
    ensures j.request != null && Served(o) ==> !rescheduled && j.request.content
  {
    hide Request.Underway, Request.Valid, Request.GivenUp, Request.LocallyRetrieved, Request.Over, Fresh, Distinct;
    rescheduled := false;
    if j.request != null {
      var contentRetrieved;
      rescheduled, contentRetrieved := j.request.React(o);
    }
  }

  lemma ScheduledToo(unfinished: set<Job>, requests: set<Request>, j: Job)
    requires RequestsRight(unfinished, requests)
    requires j.request != null ==> j.request !in requests && j.request.Underway()
    ensures RequestsRight(unfinished + {j}, WithRequest(requests, j))
  {}

  ghost function WithRequest(requests: set<Request>, j: Job): (r: set<Request>)
    ensures requests <= r && (j.request != null ==> j.request in r)
    ensures forall x :: x in r ==> x in requests || x == j.request
  {
    if j.request == null then requests
    else
      var x: Request := j.request;
      requests + {x}
  }

  ghost predicate IsSuffix(queue: seq<Job>, whole: seq<Job>) {
    |queue| <= |whole| && queue == whole[|whole| - |queue|..]
  }

  lemma SuffixSelf(queue: seq<Job>)
    ensures IsSuffix(queue, queue)
  {}

  lemma SuffixNext(queue: seq<Job>, whole: seq<Job>)
    requires IsSuffix(queue, whole) && |queue| > 0
    ensures IsSuffix(queue[1..], whole)
  {}

  class Downloader {
    const maxHandles: nat
    var handlesInUse: nat
    var queue: seq<Job>
    var active: set<Job> // the handles curl has
    ghost var unfinished: set<Job>
    // The requests and counters of all that has been scheduled.
    ghost var requests: set<Request>
    ghost var counters: set<Counter>

    ghost predicate Books()
      reads `handlesInUse, `queue, `active, `unfinished
    {
      Booked(handlesInUse, maxHandles, queue, active, unfinished)
    }

    /** The books are right, every counter says how many of its requests are unfinished, and every
        unfinished request is under way and nobody else's. */
    ghost predicate Valid()
      reads this, requests, counters
    {
      && Books() && CountersRight(unfinished, counters) && RequestsRight(unfinished, requests)
      && (queue == [] || handlesInUse == maxHandles)
    }

    constructor (limit: nat)
      ensures Valid() && unfinished == {} && requests == {} && counters == {} && maxHandles == limit
    {
      maxHandles, handlesInUse, queue := limit, 0, [];
      active, unfinished, requests, counters := {}, {}, {}, {};
    }

    /** The front of the queue is handed to curl. */
    method StartOne()
      requires Books() && |queue| > 0 && handlesInUse < maxHandles
      modifies `handlesInUse, `queue, `active
      ensures Books() && queue == old(queue)[1..] && handlesInUse == old(handlesInUse) + 1
      ensures active == old(active) + {old(queue)[0]}
    {
      hide Booked;
      StartNext(handlesInUse, maxHandles, queue, active, unfinished);
      active := active + {queue[0]};
      handlesInUse := handlesInUse + 1;
      queue := queue[1..];
    }

    /** Start queued handles, first come first served, while the limit allows. */
    method CheckHandleQueue()
      requires Books()
      modifies `handlesInUse, `queue, `active
      ensures Books() && old(active) <= active
      ensures IsSuffix(queue, old(queue))
      ensures queue == [] || handlesInUse == maxHandles
    {
      WithinLimit();
      SuffixSelf(queue);
      ghost var whole, started := queue, active;
      hide Booked, IsSuffix, Books;
      while |queue| > 0 && handlesInUse < maxHandles
        invariant Books() && handlesInUse <= maxHandles
        invariant IsSuffix(queue, whole)
        invariant started <= active
        decreases |queue|
      {
        SuffixNext(queue, whole);
        StartOne();
      }
    }

    lemma WithinLimit()
      requires Books()
      ensures handlesInUse <= maxHandles
    {}

    /** A new request is counted and queued. */
    method AsynchSchedule(counter: Counter, request: Request?) returns (j: Job)
      requires Valid() && (counter in counters || counter.left == 0)
      requires request != null ==> request !in requests && request.Underway()
      modifies this, counter
      ensures Valid() && fresh(j) && j.counter == counter && j.request == request
      ensures unfinished == old(unfinished) + {j} && counter.left == old(counter.left) + 1
      ensures IsSuffix(queue, old(queue) + [j])
      ensures counters == old(counters) + {counter} && old(requests) <= requests
      ensures request != null ==> request in requests
      ensures forall r :: r in requests ==> r in old(requests) || r == request
    {
      hide *;
      hide Valid;
      CountersAndRequests();
      j := new Job(counter, request);
      CountUp(j, unfinished, counters);
      assert RequestsRight(unfinished, requests);
      ScheduledToo(unfinished, requests, j);
      ghost var scheduled, known, counted := unfinished + {j}, WithRequest(requests, j), counters + {counter};
      PutInQueue(j);
      requests, counters := known, counted;
      CheckHandleQueue();
      assert RequestsRight(scheduled, known) && CountersRight(scheduled, counted);
      ValidAgain();
    }

    /** At the end of the queue. */
    method PutInQueue(j: Job)
      requires Books() && j !in unfinished
      modifies `queue, `unfinished
      ensures Books() && queue == old(queue) + [j] && unfinished == old(unfinished) + {j}
    {
      hide Booked;
      Enqueue(handlesInUse, maxHandles, queue, active, unfinished, j);
      queue := queue + [j];
      unfinished := unfinished + {j};
    }

    /** Off the transfers, which frees a handle. */
    method TakeOffTransfers(j: Job)
      requires Books() && j in active
      modifies `handlesInUse, `active, `unfinished
      ensures Books() && j in old(unfinished) && unfinished == old(unfinished) - {j}
    {
      hide Booked;
      TakeOff(handlesInUse, maxHandles, queue, active, unfinished, j);
      handlesInUse := handlesInUse - 1;
      active := active - {j};
      unfinished := unfinished - {j};
    }

    lemma InUseIsActive()
      requires Valid()
      ensures handlesInUse > 0 <==> active != {}
      ensures handlesInUse == 0 && maxHandles >= 1 ==> unfinished == {}
      ensures active <= unfinished
    {}

    /** With nothing unfinished every counter is at zero. */
    lemma AllCounted(c: Counter)
      requires Valid() && unfinished == {} && c in counters
      ensures c.left == 0
    {
      assert Pending(unfinished, c) == {};
    }

    lemma CountersAndRequests()
      requires Valid()
      ensures Books() && CountersRight(unfinished, counters) && RequestsRight(unfinished, requests)
    {}

    lemma ValidAgain()
      requires Books() && CountersRight(unfinished, counters) && RequestsRight(unfinished, requests)
      requires queue == [] || handlesInUse == maxHandles
      ensures Valid()
    {}

    /** A transfer is over: its request goes back to the queue, or is finished and counted once. */
    method TransferFinished(j: Job, o: Outcome) returns (rescheduled: bool)
      requires Valid() && j in active
      modifies this, j.counter, j.request
      ensures Valid() && j in old(unfinished) && requests == old(requests) && counters == old(counters)
      ensures unfinished == if rescheduled then old(unfinished) else old(unfinished) - {j}
      ensures IsSuffix(queue, if rescheduled then old(queue) + [j] else old(queue))
      ensures j.counter.left == old(j.counter.left) - if rescheduled then 0 else 1
      ensures rescheduled ==>
                j.request != null && j.request.Underway() && j.request.transfers == old(j.request.transfers) + 1
      ensures j.request != null ==> old(j.request.taken) <= j.request.taken && Distinct(j.request.taken)
      ensures j.request != null ==>
                j.request.offered == old(j.request.offered) + (set l | l in o.location + o.contentLocation)
      ensures j.request != null && !rescheduled ==> j.request.Over()
      ensures j.request != null ==> j.request.reports == old(j.request.reports) + [o]
      ensures j.request != null && Served(o) ==> !rescheduled && j.request.content
    {
      hide *;
      hide Valid;
      CountersAndRequests();
      ghost var jobs, known, counted := unfinished, requests, counters;
      TakeOffTransfers(j);
      assert RequestsRight(jobs, known) && CountersRight(jobs, counted);
      rescheduled := ReactFor(j, o, jobs, known);
      assert CountersRight(jobs, counted);
      if rescheduled {
        assert unfinished + {j} == jobs;
        PutInQueue(j);
      } else {
        CountDown(j, jobs, counted);
      }
      CheckHandleQueue();
      assert RequestsRight(unfinished, known) && CountersRight(unfinished, counted);
      ValidAgain();
    }
  }

  // ---------------------------------------------------------------------------------------------
  // Bounds.

  lemma {:induction false} DistinctStrings(s: seq<string>, offered: set<string>)
    requires Distinct(s) && forall l :: l in s ==> l in offered
    ensures |s| <= |offered|
  {
    if s != [] {
      var l := s[|s| - 1];
      var init := s[..|s| - 1];
      forall x | x in init
        ensures x in offered - {l}
      {
        var k :| 0 <= k < |init| && init[k] == x;
        assert s[k] == x;
      }
      DistinctStrings(init, offered - {l});
    }
  }

  /** No request makes more transfers than it has hosts and different locations on offer. */
  lemma TransfersBounded(r: Request)
    requires r.Valid()
    ensures r.transfers <= |r.hosts| + |r.offered|
  {
    DistinctStrings(r.locations, r.offered);
  }

  /** The completion loop ends exactly when every request with this counter is finished. */
  lemma CounterAtZero(d: Downloader, c: Counter)
    requires d.Valid() && c in d.counters
    ensures c.left == 0 <==> forall j :: j in d.unfinished ==> j.counter != c
  {
    var pending := Pending(d.unfinished, c);
    if c.left == 0 {
      assert pending == {};
      forall j | j in d.unfinished
        ensures j.counter != c
      {
        assert j in pending <==> j.counter == c;
      }
    } else {
      var j :| j in pending;
    }
  }

  /** A whole request: whatever the transfers report, as long as the locations on offer are finitely many,
      it ends, with the content or given up, after at most one transfer per host and location. */
  method RunRequest(r: Request, report: nat -> Outcome, ghost universe: set<string>) returns (contentRetrieved: bool)
    requires r.Underway() && r.transfers == 1 && r.offered == {}
    requires forall k, l :: l in report(k).location + report(k).contentLocation ==> l in universe
    modifies r
    ensures r.Over() && 1 <= r.transfers <= |r.hosts| + |r.offered| && r.offered <= universe
    ensures r.content == contentRetrieved && Distinct(r.taken)
  {
    var rescheduled, k := true, 0;
    contentRetrieved := false;
    while rescheduled
      invariant r.Valid() && (if rescheduled then r.Underway() else r.Over() && r.content == contentRetrieved)
      invariant r.offered <= universe && r.transfers >= 1
      decreases rescheduled, |r.hosts| + |universe| - r.transfers
    {
      TransfersBounded(r);
      SetSize(r.offered, universe);
      hide Fresh, Inserted, Distinct, Request.Underway, Request.Valid, Request.GivenUp, Request.LocallyRetrieved;
      rescheduled, contentRetrieved := r.React(report(k));
      k := k + 1;
    }
    TransfersBounded(r);
    r.TakenOnce();
  }

  lemma {:induction false} SetSize(a: set<string>, b: set<string>)
    requires a <= b
    ensures |a| <= |b|
  {
    if a != {} {
      var l :| l in a;
      SetSize(a - {l}, b - {l});
    }
  }

  // ---------------------------------------------------------------------------------------------
  // Whole runs of the queue.

  /** Something to download: a request, or a blocking transfer without request data. */
  datatype Task = Task(counter: Counter, request: Request?)

  /** A request that has not been scheduled. */
  ghost predicate Untouched(t: Task)
    reads t.request
  {
    t.request != null ==> t.request.Underway() && t.request.transfers == 1 && t.request.offered == {}
  }

  /** A scheduled one: under way, with so many transfers left at the most, or over. */
  ghost predicate Tracked(j: Job, running: bool, universe: set<string>, left: nat)
    reads j.request
  {
    && (running <==> left >= 1)
    && (j.request != null ==>
          && j.request.offered <= universe
          && if running then j.request.Underway() && left + j.request.transfers == |j.request.hosts| + |universe| + 1
             else j.request.Over())
  }

  lemma TrackedAtFirst(j: Job, t: Task, universe: set<string>) returns (left: nat)
    requires Untouched(t) && j.request == t.request
    ensures Tracked(j, true, universe, left)
  {
    left := 1;
    if j.request != null {
      TransfersBounded(j.request);
      left := |j.request.hosts| + |universe|;
    }
  }

  lemma UntouchedMeans(t: Task)
    requires Untouched(t)
    ensures t.request != null ==> t.request.Underway()
  {}

  lemma TrackedMeans(j: Job, universe: set<string>, left: nat)
    requires Tracked(j, true, universe, left)
    ensures left >= 1
    ensures j.request != null ==>
              j.request.offered <= universe && left + j.request.transfers == |j.request.hosts| + |universe| + 1
  {}

  lemma TrackedNext(j: Job, universe: set<string>, before: nat, rescheduled: bool) returns (left: nat)
    requires before >= 1 && (rescheduled ==> j.request != null && j.request.Underway())
    requires j.request != null ==> j.request.offered <= universe
    requires rescheduled ==> before + j.request.transfers == |j.request.hosts| + |universe| + 2
    requires j.request != null && !rescheduled ==> j.request.Over()
    ensures left < before && Tracked(j, rescheduled, universe, left)
  {
    left := 0;
    if rescheduled {
      TransfersBounded(j.request);
      SetSize(j.request.offered, universe);
      left := before - 1;
    }
  }

  function Sum(s: seq<nat>): nat { if s == [] then 0 else Sum(s[..|s| - 1]) + s[|s| - 1] }

  lemma {:induction false} SumLess(s: seq<nat>, x: nat, v: nat)
    requires x < |s| && v < s[x]
    ensures Sum(s[x := v]) < Sum(s)
  {
    var init := s[..|s| - 1];
    if x == |s| - 1 {
      assert s[x := v][..|s| - 1] == init;
    } else {
      assert s[x := v][..|s| - 1] == init[x := v];
      SumLess(init, x, v);
    }
  }

  ghost predicate DifferentRequests(todo: seq<Task>) {
    forall x, y :: 0 <= x < y < |todo| && todo[x].request != null ==> todo[x].request != todo[y].request
  }

  /** A run in which the first |jobs| tasks have been scheduled. */
  ghost predicate Going(d: Downloader, todo: seq<Task>, jobs: seq<Job>, left: seq<nat>, universe: set<string>)
    reads d, d.requests, d.counters, set t | t in todo :: t.counter
    reads set t | t in todo && t.request != null :: t.request, set j | j in jobs && j.request != null :: j.request
  {
    && |jobs| == |left| <= |todo| && d.Valid() && d.maxHandles >= 1 && DifferentRequests(todo)
    && (forall j :: j in d.unfinished ==> j in jobs)
    && (forall x :: 0 <= x < |jobs| ==> jobs[x].counter == todo[x].counter && jobs[x].request == todo[x].request)
    && (forall x, y :: 0 <= x < y < |jobs| ==> jobs[x] != jobs[y])
    && (forall x :: 0 <= x < |jobs| ==> Tracked(jobs[x], jobs[x] in d.unfinished, universe, left[x]))
    && (forall x :: 0 <= x < |jobs| ==> todo[x].counter in d.counters)
    && (forall x :: |jobs| <= x < |todo| ==> ToSchedule(d, todo[x]))
  }

  ghost predicate ToSchedule(d: Downloader, t: Task)
    reads d, t.counter, t.request
  {
    && Untouched(t) && (t.counter in d.counters || t.counter.left == 0)
    && (t.request != null ==> t.request !in d.requests)
  }

  method ScheduleNext(d: Downloader, todo: seq<Task>, ghost jobs: seq<Job>, ghost left: seq<nat>,
                      ghost universe: set<string>, i: nat)
    returns (ghost jobs': seq<Job>, ghost left': seq<nat>)
    requires Going(d, todo, jobs, left, universe) && i == |jobs| < |todo|
    modifies d, todo[i].counter
    ensures Going(d, todo, jobs', left', universe) && |jobs'| == i + 1
  {
    hide Downloader.Valid, Tracked, Untouched, Request.Underway;
    var t := todo[i];
    assert ToSchedule(d, t);
    UntouchedMeans(t);
    var j := d.AsynchSchedule(t.counter, t.request);
    ghost var estimate := TrackedAtFirst(j, t, universe);
    jobs', left' := jobs + [j], left + [estimate];
  }

  method FinishNext(d: Downloader, ghost todo: seq<Task>, ghost jobs: seq<Job>, ghost left: seq<nat>,
                    ghost universe: set<string>, o: Outcome)
    returns (ghost left': seq<nat>)
    requires Going(d, todo, jobs, left, universe) && d.handlesInUse > 0
    requires forall l :: l in o.location + o.contentLocation ==> l in universe
    modifies d, set t | t in todo :: t.counter, set t | t in todo && t.request != null :: t.request
    ensures Going(d, todo, jobs, left', universe) && Sum(left') < Sum(left)
  {
    hide Downloader.Valid, Tracked, Untouched, Request.Underway, Request.Over;
    d.InUseIsActive();
    var j :| j in d.active;
    ghost var x :| 0 <= x < |jobs| && jobs[x] == j;
    TrackedMeans(j, universe, left[x]);
    assert todo[x] in todo && todo[x].request == j.request && todo[x].counter == j.counter;
    Apart(todo, x);
    hide DifferentRequests;
    var rescheduled := d.TransferFinished(j, o);
    ghost var v := TrackedNext(j, universe, left[x], rescheduled);
    SumLess(left, x, v);
    left' := left[x := v];
    forall y | 0 <= y < |jobs|
      ensures Tracked(jobs[y], jobs[y] in d.unfinished, universe, left'[y])
    {
      assert y != x ==> todo[y].request == null || todo[y].request != j.request;
    }
    forall y | |jobs| <= y < |todo|
      ensures ToSchedule(d, todo[y])
    {
      assert todo[y].request == null || todo[y].request != j.request;
    }
  }

  lemma Apart(todo: seq<Task>, x: nat)
    requires DifferentRequests(todo) && x < |todo|
    ensures forall y :: 0 <= y < |todo| && y != x && todo[y].request != null ==> todo[y].request != todo[x].request
  {}

  /** Any number of tasks, each scheduled when turn says so, and transfers that finish in any order with any
      reports about finitely many locations: all of it comes to an end, every counter is back at zero, and
      every request is over, has fetched no location twice, and has made at most one transfer for each of its
      hosts and of the locations on offer. */
  method RunAll(d: Downloader, todo: seq<Task>, turn: nat -> bool, report: nat -> Outcome, ghost universe: set<string>)
    requires d.Valid() && d.unfinished == {} && d.maxHandles >= 1
    requires forall x :: 0 <= x < |todo| ==> Untouched(todo[x]) && todo[x].counter.left == 0
    requires forall x :: 0 <= x < |todo| && todo[x].request != null ==> todo[x].request !in d.requests
    requires forall x, y :: 0 <= x < y < |todo| && todo[x].request != null ==> todo[x].request != todo[y].request
    requires forall k, l :: l in report(k).location + report(k).contentLocation ==> l in universe
    modifies d, set t | t in todo :: t.counter, set t | t in todo && t.request != null :: t.request
    ensures d.Valid() && d.unfinished == {}
    ensures forall x :: 0 <= x < |todo| ==> todo[x].counter.left == 0
    ensures forall x :: 0 <= x < |todo| && todo[x].request != null ==>
              todo[x].request.Over() && Distinct(todo[x].request.taken)
              && todo[x].request.transfers <= |todo[x].request.hosts| + |todo[x].request.offered|
  {
    ghost var jobs: seq<Job>, left: seq<nat> := [], [];
    var i, k := 0, 0;
    while i < |todo| || d.handlesInUse > 0
      invariant Going(d, todo, jobs, left, universe) && |jobs| == i
      decreases |todo| - i, Sum(left)
    {
      hide *;
      if i < |todo| && (turn(k) || d.handlesInUse == 0) {
        jobs, left := ScheduleNext(d, todo, jobs, left, universe, i);
        i := i + 1;
      } else {
        left := FinishNext(d, todo, jobs, left, universe, report(k));
      }
      k := k + 1;
    }
    AllOver(d, todo, jobs, left, universe);
  }

  /** What is left of a run that has come to its end. */
  lemma AllOver(d: Downloader, todo: seq<Task>, jobs: seq<Job>, left: seq<nat>, universe: set<string>)
    requires Going(d, todo, jobs, left, universe) && |jobs| == |todo| && d.handlesInUse == 0
    ensures d.Valid() && d.unfinished == {}
    ensures forall x :: 0 <= x < |todo| ==> todo[x].counter.left == 0
    ensures forall x :: 0 <= x < |todo| && todo[x].request != null ==>
              todo[x].request.Over() && Distinct(todo[x].request.taken)
              && todo[x].request.transfers <= |todo[x].request.hosts| + |todo[x].request.offered|
  {
    hide Downloader.Valid, Tracked, Request.Over, Distinct;
    d.InUseIsActive();
    forall x | 0 <= x < |todo|
      ensures todo[x].counter.left == 0
    {
      d.AllCounted(todo[x].counter);
    }
    forall x | 0 <= x < |todo| && todo[x].request != null
      ensures todo[x].request.Over() && Distinct(todo[x].request.taken)
      ensures todo[x].request.transfers <= |todo[x].request.hosts| + |todo[x].request.offered|
    {
      OverMeans(jobs[x], universe, left[x]);
    }
  }

  lemma OverMeans(j: Job, universe: set<string>, left: nat)
    requires Tracked(j, false, universe, left) && j.request != null
    ensures j.request.Over() && Distinct(j.request.taken)
            && j.request.transfers <= |j.request.hosts| + |j.request.offered|
  {
    TransfersBounded(j.request);
    j.request.TakenOnce();
  }
}
