/**
 jpeg_simple_progression (jpeg/jcparam.c): the script that it writes fills the announced number of
 entries, passes the validator, and sends every coefficient down to bit 0.
 */
module SimpleProgression {
  import opened JpegLimits
  import opened ScanScript

  /** The components 0 to n - 1; entries of a scan that do not count keep what was there before. */
  ghost predicate Entry(s: ScanInfo, comps: seq<int>, ss: int, se: int, ah: int, al: int)
  {
    && s.compsInScan == |comps| <= MAX_COMPS_IN_SCAN && s.index[..|comps|] == comps
    && s.ss == ss && s.se == se && s.ah == ah && s.al == al
  }

  function UpTo(n: nat): (r: seq<int>)
    ensures |r| == n && forall i :: 0 <= i < n ==> r[i] == i
  {
    seq(n, i => i)
  }

  /** fill_a_scan. */
  method FillAScan(script: array<ScanInfo>, ptr: nat, ci: int, ss: int, se: int, ah: int, al: int) returns (next: nat)
    requires ptr < script.Length
    modifies script
    ensures next == ptr + 1 && Entry(script[ptr], [ci], ss, se, ah, al)
    ensures script[..next] == old(script[..ptr]) + [script[ptr]]
  {
    script[ptr] := ScanInfo(1, script[ptr].index[0 := ci], ss, se, ah, al);
    next := ptr + 1;
  }

  /** fill_scans: one scan for each component. */
  method FillScans(script: array<ScanInfo>, ptr: nat, ncomps: nat, ss: int, se: int, ah: int, al: int) returns (next: nat)
    requires ptr + ncomps <= script.Length
    modifies script
    ensures next == ptr + ncomps && Entries(script[ptr..next], ncomps, ss, se, ah, al)
    ensures script[..next] == old(script[..ptr]) + script[ptr..next]
  {
    next := ptr;
    for ci := 0 to ncomps
      invariant next == ptr + ci
      invariant forall i :: 0 <= i < ci ==> Entry(script[ptr + i], [i], ss, se, ah, al)
      invariant forall i :: 0 <= i < script.Length && !(ptr <= i < next) ==> script[i] == old(script[i])
    {
      script[next] := ScanInfo(1, script[next].index[0 := ci], ss, se, ah, al);
      next := next + 1;
    }
  }

  /** The number of scans for a DC pass. */
  function DcScans(ncomps: nat): nat
  {
    if ncomps <= MAX_COMPS_IN_SCAN then 1 else ncomps
  }

  ghost predicate DcEntries(scans: seq<ScanInfo>, ncomps: nat, ah: int, al: int)
  {
    && |scans| == DcScans(ncomps)
    && if ncomps <= MAX_COMPS_IN_SCAN then Entry(scans[0], UpTo(ncomps), 0, 0, ah, al)
       else forall i :: 0 <= i < ncomps ==> Entry(scans[i], [i], 0, 0, ah, al)
  }

  ghost predicate Entries(scans: seq<ScanInfo>, ncomps: nat, ss: int, se: int, ah: int, al: int)
  {
    |scans| == ncomps && forall i :: 0 <= i < ncomps ==> Entry(scans[i], [i], ss, se, ah, al)
  }

  /** fill_dc_scans: one scan of all components if they fit into one. */
  method FillDcScans(script: array<ScanInfo>, ptr: nat, ncomps: nat, ah: int, al: int) returns (next: nat)
    requires ptr + DcScans(ncomps) <= script.Length
    modifies script
    ensures next == ptr + DcScans(ncomps) && DcEntries(script[ptr..next], ncomps, ah, al)
    ensures script[..next] == old(script[..ptr]) + script[ptr..next]
  {
    if ncomps <= MAX_COMPS_IN_SCAN {
      var index: Index := script[ptr].index;
      for ci := 0 to ncomps
        modifies {}
        invariant index[..ci] == UpTo(ci)
      {
        index := index[ci := ci];
      }
      script[ptr] := ScanInfo(ncomps, index, 0, 0, ah, al);
      next := ptr + 1;
    } else {
      next := FillScans(script, ptr, ncomps, 0, 0, ah, al);
    }
  }

  // ----- What blocks of scans do -----

  lemma EntryIncludes(s: ScanInfo, comps: seq<int>, ss: int, se: int, ah: int, al: int)
    requires Entry(s, comps, ss, se, ah, al)
    ensures forall c :: Includes(s, c) <==> c in comps
  {
    forall c
      ensures Includes(s, c) <==> c in comps
    {
      if Includes(s, c) {
        var i :| 0 <= i < s.compsInScan && i < |s.index| && s.index[i] == c;
        assert comps[i] == s.index[..|comps|][i] == c;
      }
      if c in comps {
        var i :| 0 <= i < |comps| && comps[i] == c;
        assert s.index[..|comps|][i] == s.index[i];
      }
    }
  }

  /** A band of the components below n is at bit `bit` (-1: not sent). */
  ghost predicate BandAt(script: Script, n: nat, ss: int, se: int, bit: int)
  {
    forall c, k :: 0 <= c < n && ss <= k <= se ==> SentTo(script, c, k) == bit
  }

  /** One more scan: what it requires and what it does. */
  lemma OneScan(script: Script, ncomps: int, s: ScanInfo, comps: seq<int>, ss: int, se: int, ah: int, al: int)
    requires Steps(true, ncomps, script) && Entry(s, comps, ss, se, ah, al)
    requires 1 <= |comps| && (forall i :: 0 <= i < |comps| ==> 0 <= comps[i] < ncomps)
    requires forall i :: 0 < i < |comps| ==> comps[i - 1] < comps[i]
    requires 0 <= ss <= se < DCTSIZE2 && 0 <= ah <= MAX_AH_AL && 0 <= al <= MAX_AH_AL && (ss == 0 ==> se == 0) && (ss != 0 ==> |comps| == 1)
    requires forall c :: c in comps && ss != 0 ==> SentTo(script, c, 0) >= 0
    requires forall c, k :: c in comps && ss <= k <= se ==> Continues(SentTo(script, c, k), ah, al)
    ensures Steps(true, ncomps, script + [s])
    ensures forall c, k :: SentTo(script + [s], c, k) == if c in comps && ss <= k <= se then al else SentTo(script, c, k)
  {
    hide Steps, SentTo, Includes;
    EntryIncludes(s, comps, ss, se, ah, al);
    assert forall i :: 0 <= i < |comps| ==> s.index[i] == s.index[..|comps|][i] == comps[i];
    AddStep(script, ncomps, s);
  }

  lemma AddStep(script: Script, ncomps: int, s: ScanInfo)
    requires Steps(true, ncomps, script) && Step(true, ncomps, script, s)
    ensures Steps(true, ncomps, script + [s])
    ensures forall c, k :: SentTo(script + [s], c, k) == if Sends(s, c, k) then s.al else SentTo(script, c, k)
  {
    hide Step, Sends;
    assert (script + [s])[..|script|] == script;
  }

  /** A scan for each of the components below n, of a band that is at bit `before` in all of them. */
  lemma {:induction false} ScansForAll(script: Script, ncomps: nat, scans: seq<ScanInfo>, n: nat, ss: int, se: int, before: int, ah: int, al: int)
    requires Steps(true, ncomps, script) && Entries(scans, ncomps, ss, se, ah, al) && n <= ncomps
    requires 0 <= ss <= se < DCTSIZE2 && 0 <= ah <= MAX_AH_AL && 0 <= al <= MAX_AH_AL && (ss == 0 ==> se == 0)
    requires BandAt(script, ncomps, ss, se, before) && Continues(before, ah, al)
    requires ss != 0 ==> forall c :: 0 <= c < ncomps ==> SentTo(script, c, 0) >= 0
    ensures Steps(true, ncomps, script + scans[..n])
    ensures forall c, k :: SentTo(script + scans[..n], c, k) == if 0 <= c < n && ss <= k <= se then al else SentTo(script, c, k)
  {
    hide Steps, SentTo, Entry, Continues;
    if n == 0 {
      assert script + scans[..0] == script;
    } else {
      ScansForAll(script, ncomps, scans, n - 1, ss, se, before, ah, al);
      assert script + scans[..n] == (script + scans[..n - 1]) + [scans[n - 1]];
      OneScan(script + scans[..n - 1], ncomps, scans[n - 1], [n - 1], ss, se, ah, al);
    }
  }

  /** A pass over all components. */
  lemma Pass(script: Script, ncomps: nat, scans: seq<ScanInfo>, ss: int, se: int, before: int, ah: int, al: int) returns (r: Script)
    requires Steps(true, ncomps, script) && Entries(scans, ncomps, ss, se, ah, al)
    requires 0 < ss <= se < DCTSIZE2 && 0 <= ah <= MAX_AH_AL && 0 <= al <= MAX_AH_AL
    requires BandAt(script, ncomps, ss, se, before) && Continues(before, ah, al)
    requires forall c :: 0 <= c < ncomps ==> SentTo(script, c, 0) >= 0
    ensures r == script + scans && Steps(true, ncomps, r)
    ensures forall c, k :: SentTo(r, c, k) == if 0 <= c < ncomps && ss <= k <= se then al else SentTo(script, c, k)
  {
    assert scans[..ncomps] == scans;
    ScansForAll(script, ncomps, scans, ncomps, ss, se, before, ah, al);
    r := script + scans;
  }

  /** A DC pass. */
  lemma DcPass(script: Script, ncomps: nat, scans: seq<ScanInfo>, before: int, ah: int, al: int) returns (r: Script)
    requires Steps(true, ncomps, script) && DcEntries(scans, ncomps, ah, al) && ncomps >= 1
    requires 0 <= ah <= MAX_AH_AL && 0 <= al <= MAX_AH_AL
    requires BandAt(script, ncomps, 0, 0, before) && Continues(before, ah, al)
    ensures r == script + scans && Steps(true, ncomps, r)
    ensures forall c, k :: SentTo(r, c, k) == if 0 <= c < ncomps && k == 0 then al else SentTo(script, c, k)
  {
    hide Steps, SentTo, Continues;
    if ncomps <= MAX_COMPS_IN_SCAN {
      assert scans == [scans[0]];
      UpToContains(ncomps);
      OneScan(script, ncomps, scans[0], UpTo(ncomps), 0, 0, ah, al);
      r := script + scans;
    } else {
      assert scans[..ncomps] == scans;
      ScansForAll(script, ncomps, scans, ncomps, 0, 0, before, ah, al);
      r := script + scans;
    }
  }

  /** The script sends everything. */
  ghost predicate Complete(script: Script, ncomps: nat)
  {
    Accepted(ncomps, script) && IsProgressive(script) && BandAt(script, ncomps, 0, DCTSIZE2 - 1, 0)
  }

  lemma NothingYet(ncomps: nat)
    ensures Steps(true, ncomps, []) && BandAt([], ncomps, 0, DCTSIZE2 - 1, -1)
  {
  }

  lemma UpToContains(n: nat)
    ensures forall c: int :: c in UpTo(n) <==> 0 <= c < n
  {
    forall c: int
      ensures c in UpTo(n) <==> 0 <= c < n
    {
      if 0 <= c < n {
        assert UpTo(n)[c] == c;
      }
    }
  }

  /** One more scan of one component. */
  lemma OneMore(script: Script, ncomps: nat, s: ScanInfo, c: int, ss: int, se: int, before: int, ah: int, al: int) returns (r: Script)
    requires Steps(true, ncomps, script) && Entry(s, [c], ss, se, ah, al) && 0 <= c < ncomps
    requires 0 < ss <= se < DCTSIZE2 && 0 <= ah <= MAX_AH_AL && 0 <= al <= MAX_AH_AL
    requires SentTo(script, c, 0) >= 0 && (forall k :: ss <= k <= se ==> SentTo(script, c, k) == before) && Continues(before, ah, al)
    ensures r == script + [s] && Steps(true, ncomps, r)
    ensures forall d, k :: SentTo(r, d, k) == if d == c && ss <= k <= se then al else SentTo(script, d, k)
  {
    hide Steps, SentTo, Entry, Continues;
    OneScan(script, ncomps, s, [c], ss, se, ah, al);
    r := script + [s];
  }

  lemma DcFirst(scans: seq<ScanInfo>, ncomps: nat, ah: int, al: int)
    requires DcEntries(scans, ncomps, ah, al) && ncomps >= 1
    ensures |scans| >= 1 && scans[0].se == 0
  {
  }

  // ----- The script for YCbCr images -----

  /** The ten scans: components, band and bits. */
  ghost predicate ColourScans(s: Script)
  {
    && |s| == 10
    && DcEntries(s[0..1], 3, 0, 1) && Entry(s[1], [0], 1, 5, 0, 2) && Entry(s[2], [2], 1, 63, 0, 1) && Entry(s[3], [1], 1, 63, 0, 1)
    && Entry(s[4], [0], 6, 63, 0, 2) && Entry(s[5], [0], 1, 63, 2, 1)
    && DcEntries(s[6..7], 3, 1, 0) && Entry(s[7], [2], 1, 63, 1, 0) && Entry(s[8], [1], 1, 63, 1, 0) && Entry(s[9], [0], 1, 63, 1, 0)
  }

  lemma ColourComplete(script: Script)
    requires ColourScans(script)
    ensures Complete(script, 3)
  {
    hide Entry, DcEntries, Steps, SentTo;
    NothingYet(3);
    DcFirst(script[0..1], 3, 0, 1);
    var s := DcPass([], 3, script[0..1], -1, 0, 1);
    s := OneMore(s, 3, script[1], 0, 1, 5, -1, 0, 2);
    s := OneMore(s, 3, script[2], 2, 1, 63, -1, 0, 1);
    s := OneMore(s, 3, script[3], 1, 1, 63, -1, 0, 1);
    s := OneMore(s, 3, script[4], 0, 6, 63, -1, 0, 2);
    s := OneMore(s, 3, script[5], 0, 1, 63, 2, 2, 1);
    s := DcPass(s, 3, script[6..7], 1, 1, 0);
    s := OneMore(s, 3, script[7], 2, 1, 63, 1, 1, 0);
    s := OneMore(s, 3, script[8], 1, 1, 63, 1, 1, 0);
    s := OneMore(s, 3, script[9], 0, 1, 63, 1, 1, 0);
    assert s == script;
  }

  /** The custom script gets some luma data out early, and everything down to bit 0 in the end. */
  lemma ColourAsListed(s: Script)
    requires ColourScans(s)
    ensures forall i :: 0 <= i < 10 ==>
              var (first, ss, se, ah, al) := [(0, 0, 0, 0, 1), (0, 1, 5, 0, 2), (2, 1, 63, 0, 1), (1, 1, 63, 0, 1), (0, 6, 63, 0, 2),
                                              (0, 1, 63, 2, 1), (0, 0, 0, 1, 0), (2, 1, 63, 1, 0), (1, 1, 63, 1, 0), (0, 1, 63, 1, 0)][i];
              && s[i].ss == ss && s[i].se == se && s[i].ah == ah && s[i].al == al
              && s[i].compsInScan == (if ss == 0 then 3 else 1) && s[i].index[0] == first
              && (ss == 0 ==> s[i].index[1] == 1 && s[i].index[2] == 2)
  {
    OneOf(s[1], 0, 1, 5, 0, 2);
    OneOf(s[2], 2, 1, 63, 0, 1);
    OneOf(s[3], 1, 1, 63, 0, 1);
    OneOf(s[4], 0, 6, 63, 0, 2);
    OneOf(s[5], 0, 1, 63, 2, 1);
    OneOf(s[7], 2, 1, 63, 1, 0);
    OneOf(s[8], 1, 1, 63, 1, 0);
    OneOf(s[9], 0, 1, 63, 1, 0);
    AllOf(s[0..1][0], 3, 0, 1);
    AllOf(s[6..7][0], 3, 1, 0);
  }

  lemma OneOf(s: ScanInfo, c: int, ss: int, se: int, ah: int, al: int)
    requires Entry(s, [c], ss, se, ah, al)
    ensures s.compsInScan == 1 && s.index[0] == c && s.ss == ss && s.se == se && s.ah == ah && s.al == al
  {
    assert s.index[..1][0] == c;
  }

  lemma AllOf(s: ScanInfo, n: nat, ah: int, al: int)
    requires Entry(s, UpTo(n), 0, 0, ah, al)
    ensures s.compsInScan == n && s.ss == s.se == 0 && s.ah == ah && s.al == al
    ensures forall i :: 0 <= i < n && i < 4 ==> s.index[i] == i
  {
    assert forall i :: 0 <= i < n ==> s.index[i] == s.index[..n][i];
  }

  method WriteColour(script: array<ScanInfo>) returns (ptr: nat)
    requires script.Length >= 10
    modifies script
    ensures ptr == 10 && ColourScans(script[..ptr])
  {
    hide Entry, DcEntries;
    ptr := FillDcScans(script, 0, 3, 0, 1);
    ghost var d0 := script[..1];
    ptr := FillAScan(script, ptr, 0, 1, 5, 0, 2);
    ghost var e1 := script[1];
    ptr := FillAScan(script, ptr, 2, 1, 63, 0, 1);
    ghost var e2 := script[2];
    ptr := FillAScan(script, ptr, 1, 1, 63, 0, 1);
    ghost var e3 := script[3];
    ptr := FillAScan(script, ptr, 0, 6, 63, 0, 2);
    ghost var e4 := script[4];
    ptr := FillAScan(script, ptr, 0, 1, 63, 2, 1);
    ghost var e5, s5 := script[5], script[..6];
    assert s5 == d0 + [e1] + [e2] + [e3] + [e4] + [e5];
    ptr := FillDcScans(script, ptr, 3, 1, 0);
    ghost var d6 := script[6..7];
    ptr := FillAScan(script, ptr, 2, 1, 63, 1, 0);
    ghost var e7 := script[7];
    ptr := FillAScan(script, ptr, 1, 1, 63, 1, 0);
    ghost var e8 := script[8];
    ptr := FillAScan(script, ptr, 0, 1, 63, 1, 0);
    assert script[..ptr] == s5 + d6 + [e7] + [e8] + [script[9]];
    ColourParts(d0, e1, e2, e3, e4, e5, d6, e7, e8, script[9]);
  }

  lemma ColourParts(d0: Script, e1: ScanInfo, e2: ScanInfo, e3: ScanInfo, e4: ScanInfo, e5: ScanInfo,
                    d6: Script, e7: ScanInfo, e8: ScanInfo, e9: ScanInfo)
    requires |d0| == |d6| == 1 && DcEntries(d0, 3, 0, 1) && DcEntries(d6, 3, 1, 0)
    requires Entry(e1, [0], 1, 5, 0, 2) && Entry(e2, [2], 1, 63, 0, 1) && Entry(e3, [1], 1, 63, 0, 1)
    requires Entry(e4, [0], 6, 63, 0, 2) && Entry(e5, [0], 1, 63, 2, 1)
    requires Entry(e7, [2], 1, 63, 1, 0) && Entry(e8, [1], 1, 63, 1, 0) && Entry(e9, [0], 1, 63, 1, 0)
    ensures ColourScans(d0 + [e1] + [e2] + [e3] + [e4] + [e5] + d6 + [e7] + [e8] + [e9])
  {
    hide Entry, DcEntries;
    var s := d0 + [e1] + [e2] + [e3] + [e4] + [e5] + d6 + [e7] + [e8] + [e9];
    assert s[0..1] == d0 && s[6..7] == d6;
  }

  // ----- The script for all other images -----

  /** All components are at bit dc for coefficient 0, at low for 1 to 5, and at high for the rest. */
  ghost predicate At(s: Script, n: nat, dc: int, low: int, high: int)
  {
    Steps(true, n, s) && BandAt(s, n, 0, 0, dc) && BandAt(s, n, 1, 5, low) && BandAt(s, n, 6, 63, high)
  }

  lemma DcPassAt(s: Script, n: nat, scans: seq<ScanInfo>, dc: int, low: int, high: int, ah: int, al: int)
    requires At(s, n, dc, low, high) && DcEntries(scans, n, ah, al) && n >= 1 && Continues(dc, ah, al)
    requires 0 <= ah <= MAX_AH_AL && 0 <= al <= MAX_AH_AL
    ensures At(s + scans, n, al, low, high)
  {
    hide Steps, SentTo, DcEntries;
    var r := DcPass(s, n, scans, dc, ah, al);
  }

  lemma PassAt(s: Script, n: nat, scans: seq<ScanInfo>, ss: int, se: int, dc: int, low: int, high: int, ah: int, al: int)
    requires At(s, n, dc, low, high) && dc >= 0 && Entries(scans, n, ss, se, ah, al)
    requires (ss == 1 && se == 5) || (ss == 6 && se == 63) || (ss == 1 && se == 63 && low == high)
    requires Continues(if ss == 1 then low else high, ah, al) && 0 <= ah <= MAX_AH_AL && 0 <= al <= MAX_AH_AL
    ensures At(s + scans, n, dc, if ss == 1 then al else low, if se == 63 then al else high)
  {
    hide Steps, SentTo, Entries;
    var r := Pass(s, n, scans, ss, se, if ss == 1 then low else high, ah, al);
  }

  lemma AllAtZero(s: Script, n: nat)
    requires At(s, n, 0, 0, 0) && n >= 1 && s != [] && s[0].se == 0
    ensures Complete(s, n)
  {
    hide Steps, SentTo;
  }

  lemma StartAt(n: nat)
    ensures At([], n, -1, -1, -1)
  {
  }

  /** The six passes: coefficient 0 first, then 1 to 5, then the rest, and refinements of all of them. */
  ghost predicate GeneralScans(s: Script, n: nat)
  {
    var d := DcScans(n);
    && |s| == 2 * d + 4 * n
    && DcEntries(s[0..d], n, 0, 1)
    && Entries(s[d..d + n], n, 1, 5, 0, 2)
    && Entries(s[d + n..d + 2 * n], n, 6, 63, 0, 2)
    && Entries(s[d + 2 * n..d + 3 * n], n, 1, 63, 2, 1)
    && DcEntries(s[d + 3 * n..2 * d + 3 * n], n, 1, 0)
    && Entries(s[2 * d + 3 * n..2 * d + 4 * n], n, 1, 63, 1, 0)
  }

  lemma GeneralComplete(script: Script, n: nat)
    requires GeneralScans(script, n) && n >= 1
    ensures Complete(script, n)
  {
    hide Entries, DcEntries, At, Complete;
    var d := DcScans(n);
    StartAt(n);
    DcFirst(script[0..d], n, 0, 1);
    DcPassAt([], n, script[0..d], -1, -1, -1, 0, 1);
    assert [] + script[0..d] == script[..d];
    PassAt(script[..d], n, script[d..d + n], 1, 5, 1, -1, -1, 0, 2);
    assert script[..d] + script[d..d + n] == script[..d + n];
    PassAt(script[..d + n], n, script[d + n..d + 2 * n], 6, 63, 1, 2, -1, 0, 2);
    assert script[..d + n] + script[d + n..d + 2 * n] == script[..d + 2 * n];
    PassAt(script[..d + 2 * n], n, script[d + 2 * n..d + 3 * n], 1, 63, 1, 2, 2, 2, 1);
    assert script[..d + 2 * n] + script[d + 2 * n..d + 3 * n] == script[..d + 3 * n];
    DcPassAt(script[..d + 3 * n], n, script[d + 3 * n..2 * d + 3 * n], 1, 1, 1, 1, 0);
    assert script[..d + 3 * n] + script[d + 3 * n..2 * d + 3 * n] == script[..2 * d + 3 * n];
    PassAt(script[..2 * d + 3 * n], n, script[2 * d + 3 * n..2 * d + 4 * n], 1, 63, 0, 1, 1, 1, 0);
    assert script[..2 * d + 3 * n] + script[2 * d + 3 * n..2 * d + 4 * n] == script;
    AllAtZero(script, n);
  }

  /** The scans of component c in the six passes; the DC scans of at most four components are one. */
  lemma GeneralAsListed(s: Script, n: nat, c: nat)
    requires GeneralScans(s, n) && c < n
    ensures var d := if n <= 4 then 1 else n;
            && |s| == 2 * d + 4 * n
            && (var t := s[d + c]; (t.compsInScan, t.index[0], t.ss, t.se, t.ah, t.al) == (1, c, 1, 5, 0, 2))
            && (var t := s[d + n + c]; (t.compsInScan, t.index[0], t.ss, t.se, t.ah, t.al) == (1, c, 6, 63, 0, 2))
            && (var t := s[d + 2 * n + c]; (t.compsInScan, t.index[0], t.ss, t.se, t.ah, t.al) == (1, c, 1, 63, 2, 1))
            && (var t := s[2 * d + 3 * n + c]; (t.compsInScan, t.index[0], t.ss, t.se, t.ah, t.al) == (1, c, 1, 63, 1, 0))
    ensures n <= 4 ==> (var t := s[0]; (t.compsInScan, t.index[c], t.ss, t.se, t.ah, t.al) == (n, c, 0, 0, 0, 1))
                       && (var t := s[1 + 3 * n]; (t.compsInScan, t.index[c], t.ss, t.se, t.ah, t.al) == (n, c, 0, 0, 1, 0))
    ensures n > 4 ==> (var t := s[c]; (t.compsInScan, t.index[0], t.ss, t.se, t.ah, t.al) == (1, c, 0, 0, 0, 1))
                      && (var t := s[4 * n + c]; (t.compsInScan, t.index[0], t.ss, t.se, t.ah, t.al) == (1, c, 0, 0, 1, 0))
  {
    hide Entries, DcEntries;
    var d := DcScans(n);
    DcListed(s, 0, n, 0, 1, c);
    Listed(s, d, n, 1, 5, 0, 2, c);
    Listed(s, d + n, n, 6, 63, 0, 2, c);
    Listed(s, d + 2 * n, n, 1, 63, 2, 1, c);
    DcListed(s, d + 3 * n, n, 1, 0, c);
    Listed(s, 2 * d + 3 * n, n, 1, 63, 1, 0, c);
  }

  lemma Listed(s: Script, from: nat, n: nat, ss: int, se: int, ah: int, al: int, c: nat)
    requires from + n <= |s| && Entries(s[from..from + n], n, ss, se, ah, al) && c < n
    ensures var t := s[from + c]; t.compsInScan == 1 && t.index[0] == c && t.ss == ss && t.se == se && t.ah == ah && t.al == al
  {
    OneOf(s[from..from + n][c], c, ss, se, ah, al);
  }

  lemma DcListed(s: Script, from: nat, n: nat, ah: int, al: int, c: nat)
    requires c < n && from + DcScans(n) <= |s| && DcEntries(s[from..from + DcScans(n)], n, ah, al)
    ensures DcScans(n) == if n <= 4 then 1 else n
    ensures var t := s[from + if n <= 4 then 0 else c];
            && t.ss == t.se == 0 && t.ah == ah && t.al == al
            && if n <= 4 then t.compsInScan == n && t.index[c] == c else t.compsInScan == 1 && t.index[0] == c
  {
    var scans := s[from..from + DcScans(n)];
    if n <= 4 {
      AllOf(scans[0], n, ah, al);
    } else {
      OneOf(scans[c], c, 0, 0, ah, al);
    }
  }

  method WriteGeneral(script: array<ScanInfo>, n: nat) returns (ptr: nat)
    requires n >= 1 && script.Length >= 2 * DcScans(n) + 4 * n
    modifies script
    ensures ptr == 2 * DcScans(n) + 4 * n && GeneralScans(script[..ptr], n)
  {
    hide Entries, DcEntries;
    ptr := FillDcScans(script, 0, n, 0, 1);
    ghost var s0 := script[..ptr];
    ptr := FillScans(script, ptr, n, 1, 5, 0, 2);
    ghost var s1, p1 := script[..ptr], script[ptr - n..ptr];
    ptr := FillScans(script, ptr, n, 6, 63, 0, 2);
    ghost var s2, p2 := script[..ptr], script[ptr - n..ptr];
    ptr := FillScans(script, ptr, n, 1, 63, 2, 1);
    ghost var s3, p3 := script[..ptr], script[ptr - n..ptr];
    ptr := FillDcScans(script, ptr, n, 1, 0);
    ghost var s4, p4 := script[..ptr], script[ptr - DcScans(n)..ptr];
    ptr := FillScans(script, ptr, n, 1, 63, 1, 0);
    InParts(n, s0, p1, s1, p2, s2, p3, s3, p4, s4, script[ptr - n..ptr], script[..ptr]);
  }

  lemma InParts(n: nat, s0: Script, p1: Script, s1: Script, p2: Script, s2: Script, p3: Script, s3: Script, p4: Script, s4: Script,
                p5: Script, s: Script)
    requires s1 == s0 + p1 && s2 == s1 + p2 && s3 == s2 + p3 && s4 == s3 + p4 && s == s4 + p5
    requires |s0| == |p4| == DcScans(n) && |p1| == |p2| == |p3| == |p5| == n
    requires DcEntries(s0, n, 0, 1) && Entries(p1, n, 1, 5, 0, 2) && Entries(p2, n, 6, 63, 0, 2) && Entries(p3, n, 1, 63, 2, 1)
    requires DcEntries(p4, n, 1, 0) && Entries(p5, n, 1, 63, 1, 0)
    ensures GeneralScans(s, n)
  {
    hide Entries, DcEntries;
    assert s[..|s4|] == s4;
    Cut(s, s4, s3, p4);
    Cut(s, s3, s2, p3);
    Cut(s, s2, s1, p2);
    Cut(s, s1, s0, p1);
    var d := DcScans(n);
    assert s[0..d] == s0 && s[d..d + n] == p1 && s[d + n..d + 2 * n] == p2 && s[d + 2 * n..d + 3 * n] == p3;
    assert s[d + 3 * n..2 * d + 3 * n] == p4 && s[2 * d + 3 * n..2 * d + 4 * n] == p5;
  }

  lemma Cut(s: Script, whole: Script, a: Script, b: Script)
    requires |whole| <= |s| && s[..|whole|] == whole == a + b
    ensures |a| <= |whole| && s[..|a|] == a && s[|a|..|whole|] == b
  {
    assert s[..|a|] == whole[..|a|];
    assert s[|a|..|whole|] == whole[|a|..];
  }

  /**
   jpeg_simple_progression: every announced entry is filled, with the scans of the recommended
   script in their order, and the script is complete.
   */
  method SimpleProgression(ncomps: nat, ycc: bool) returns (script: array<ScanInfo>, numScans: nat)
    requires ncomps >= 1
    ensures fresh(script) && numScans == if ncomps == 3 && ycc then 10 else 2 * (if ncomps <= 4 then 1 else ncomps) + 4 * ncomps
    ensures numScans <= script.Length && Complete(script[..numScans], ncomps)
    ensures if ncomps == 3 && ycc then ColourScans(script[..numScans]) else GeneralScans(script[..numScans], ncomps)
  {
    hide Complete, ColourScans, GeneralScans;
    var blank := ScanInfo(0, [0, 0, 0, 0], 0, 0, 0, 0);
    var ptr;
    if ncomps == 3 && ycc {
      numScans := 10;
    } else {
      numScans := if ncomps > MAX_COMPS_IN_SCAN then 6 * ncomps else 2 + 4 * ncomps;
    }
    script := new ScanInfo[if numScans > 10 then numScans else 10](_ => blank);
    if ncomps == 3 && ycc {
      ptr := WriteColour(script);
      ColourComplete(script[..ptr]);
    } else {
      ptr := WriteGeneral(script, ncomps);
      GeneralComplete(script[..ptr], ncomps);
    }
    assert ptr == numScans;
  }
}
