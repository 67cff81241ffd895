/**
 Scan scripts: validate_script (jpeg/jcmaster.c). The validator accepts exactly the scripts in which
 every scan continues what the earlier ones have sent; in these, bit planes are sent in order and
 once, and DC before AC.
 */
module ScanScript {
  import opened JpegLimits

  const MAX_AH_AL := 10

  /** jpeg_scan_info: of the component indexes only the first compsInScan count. */
  type Index = x: seq<int> | |x| == MAX_COMPS_IN_SCAN witness [0, 0, 0, 0]

  datatype ScanInfo = ScanInfo(compsInScan: int, index: Index, ss: int, se: int, ah: int, al: int)

  type Script = seq<ScanInfo>

  // ----- What a script sends -----

  ghost predicate Includes(s: ScanInfo, c: int)
  {
    exists i :: 0 <= i < s.compsInScan && i < |s.index| && s.index[i] == c
  }

  ghost predicate Sends(s: ScanInfo, c: int, k: int)
  {
    Includes(s, c) && s.ss <= k <= s.se
  }

  /** The bit down to which coefficient k of component c has been sent; -1 if it has not been sent. */
  ghost function SentTo(script: Script, c: int, k: int): int
  {
    if script == [] then -1
    else
      var last := script[|script| - 1];
      if Sends(last, c, k) then last.al else SentTo(script[..|script| - 1], c, k)
  }

  // ----- Which scripts are right -----

  /** One to four components, in order. */
  ghost predicate ComponentsOk(s: ScanInfo, ncomps: int)
  {
    && 1 <= s.compsInScan <= MAX_COMPS_IN_SCAN
    && (forall i :: 0 <= i < s.compsInScan ==> 0 <= s.index[i] < ncomps)
    && (forall i :: 0 < i < s.compsInScan ==> s.index[i - 1] < s.index[i])
  }

  ghost predicate BandOk(s: ScanInfo)
  {
    && 0 <= s.ss <= s.se < DCTSIZE2 && 0 <= s.ah <= MAX_AH_AL && 0 <= s.al <= MAX_AH_AL
    && (s.ss == 0 ==> s.se == 0) && (s.ss != 0 ==> s.compsInScan == 1)
  }

  /** A first scan sends all bits down to al; a later one sends exactly the next bit. */
  ghost predicate Continues(before: int, ah: int, al: int)
  {
    if before < 0 then ah == 0 else ah == before && al == ah - 1
  }

  ghost predicate ProgressiveStep(before: Script, s: ScanInfo)
  {
    && BandOk(s)
    && (forall c :: Includes(s, c) && s.ss != 0 ==> SentTo(before, c, 0) >= 0)
    && (forall c, k :: Sends(s, c, k) ==> Continues(SentTo(before, c, k), s.ah, s.al))
  }

  ghost predicate SequentialStep(before: Script, s: ScanInfo)
  {
    && s.ss == 0 && s.se == DCTSIZE2 - 1 && s.ah == 0 && s.al == 0
    && (forall c :: Includes(s, c) ==> SentTo(before, c, 0) < 0)
  }

  ghost predicate Step(progressive: bool, ncomps: int, before: Script, s: ScanInfo)
  {
    ComponentsOk(s, ncomps) && if progressive then ProgressiveStep(before, s) else SequentialStep(before, s)
  }

  ghost predicate Steps(progressive: bool, ncomps: int, script: Script)
  {
    script != [] ==>
      var n := |script| - 1;
      Steps(progressive, ncomps, script[..n]) && Step(progressive, ncomps, script[..n], script[n])
  }

  predicate IsProgressive(script: Script)
    requires script != []
  {
    script[0].ss != 0 || script[0].se != DCTSIZE2 - 1
  }

  ghost predicate Accepted(ncomps: int, script: Script)
  {
    && script != [] && Steps(IsProgressive(script), ncomps, script)
    && forall c :: 0 <= c < ncomps ==> SentTo(script, c, 0) >= 0
  }

  // ----- The rules in full -----

  /** What one more scan changes. */
  lemma SentByOneMore(script: Script, s: ScanInfo, c: int, k: int)
    requires 0 <= s.compsInScan <= 4
    ensures SentTo([], c, k) == -1
    ensures SentTo(script + [s], c, k) == if c in s.index[..s.compsInScan] && s.ss <= k <= s.se then s.al else SentTo(script, c, k)
  {
    hide Includes;
    assert (script + [s])[..|script|] == script;
    IncludesIs(s, c);
  }

  lemma IncludesIs(s: ScanInfo, c: int)
    requires 0 <= s.compsInScan <= 4
    ensures c in s.index[..s.compsInScan] <==> Includes(s, c)
  {
    if i :| 0 <= i < s.compsInScan && s.index[i] == c {
      assert s.index[..s.compsInScan][i] == c;
    }
  }

  /** When a scan may come after those of a script. */
  lemma StepRules(progressive: bool, ncomps: int, script: Script, s: ScanInfo)
    requires Steps(progressive, ncomps, script)
    ensures Steps(progressive, ncomps, script + [s]) ==>
              1 <= s.compsInScan <= 4
              && (forall i :: 0 <= i < s.compsInScan ==> 0 <= s.index[i] < ncomps)
              && (forall i :: 1 <= i < s.compsInScan ==> s.index[i - 1] < s.index[i])
    ensures Steps(true, ncomps, script + [s]) && progressive ==>
              0 <= s.ss <= s.se <= 63 && 0 <= s.ah <= 10 && 0 <= s.al <= 10 && (if s.ss == 0 then s.se == 0 else s.compsInScan == 1)
              && forall i, k :: 0 <= i < s.compsInScan && s.ss <= k <= s.se ==>
                   var to := SentTo(script, s.index[i], k);
                   (s.ss > 0 ==> SentTo(script, s.index[i], 0) != -1) && if to == -1 then s.ah == 0 else s.ah == to && s.al == to - 1
    ensures Steps(false, ncomps, script + [s]) && !progressive ==>
              s.ss == 0 && s.se == 63 && s.ah == 0 && s.al == 0
              && forall i :: 0 <= i < s.compsInScan ==> SentTo(script, s.index[i], 0) == -1
  {
    hide SentTo;
    assert (script + [s])[..|script|] == script;
    forall c, k
      ensures SentTo(script, c, k) >= -1
    {
      SentAtLeast(progressive, ncomps, script, c, k);
    }
    forall i | 0 <= i < s.compsInScan && i < 4
      ensures Includes(s, s.index[i]) && forall k :: s.ss <= k <= s.se ==> Sends(s, s.index[i], k)
    {
    }
  }

  lemma {:induction false} SentAtLeast(progressive: bool, ncomps: int, script: Script, c: int, k: int)
    requires Steps(progressive, ncomps, script)
    ensures SentTo(script, c, k) >= -1
    decreases |script|
  {
    hide Sends, ComponentsOk, Includes;
    if script != [] {
      SentAtLeast(progressive, ncomps, script[..|script| - 1], c, k);
    }
  }

  /** Whatever keeps to the rules may come next. */
  lemma StepAllowed(progressive: bool, ncomps: int, script: Script, s: ScanInfo)
    requires Steps(progressive, ncomps, script) && 1 <= s.compsInScan <= 4
    requires forall i :: 0 <= i < s.compsInScan ==> 0 <= s.index[i] < ncomps
    requires forall i :: 1 <= i < s.compsInScan ==> s.index[i - 1] < s.index[i]
    requires progressive ==> 0 <= s.ss <= s.se <= 63 && 0 <= s.ah <= 10 && 0 <= s.al <= 10 && (if s.ss == 0 then s.se == 0 else s.compsInScan == 1)
    requires progressive ==> forall i, k :: 0 <= i < s.compsInScan && s.ss <= k <= s.se ==>
               var to := SentTo(script, s.index[i], k);
               (s.ss > 0 ==> SentTo(script, s.index[i], 0) != -1) && if to == -1 then s.ah == 0 else s.ah == to && s.al == to - 1
    requires !progressive ==> s.ss == 0 && s.se == 63 && s.ah == 0 && s.al == 0
    requires !progressive ==> forall i :: 0 <= i < s.compsInScan ==> SentTo(script, s.index[i], 0) == -1
    ensures Steps(progressive, ncomps, script + [s])
  {
    hide SentTo;
    assert (script + [s])[..|script|] == script;
    forall c, k
      ensures SentTo(script, c, k) >= -1
    {
      SentAtLeast(progressive, ncomps, script, c, k);
    }
    if progressive {
      forall c | Includes(s, c)
        ensures s.ss != 0 ==> SentTo(script, c, 0) >= 0
        ensures forall k :: s.ss <= k <= s.se ==> Continues(SentTo(script, c, k), s.ah, s.al)
      {
        var i :| 0 <= i < s.compsInScan && s.index[i] == c;
        assert s.ss <= s.ss <= s.se;
        assert SentTo(script, s.index[i], s.ss) >= -1;
      }
    }
  }

  /** A script is accepted exactly if its scans keep to the rules and send the DC coefficients of every component. */
  lemma AcceptedScripts(ncomps: int, script: Script)
    requires script != []
    ensures Accepted(ncomps, script) ==>
              Steps(script[0].ss != 0 || script[0].se != 63, ncomps, script) && forall c :: 0 <= c < ncomps ==> SentTo(script, c, 0) != -1
    ensures Steps(script[0].ss != 0 || script[0].se != 63, ncomps, script) && (forall c :: 0 <= c < ncomps ==> SentTo(script, c, 0) != -1) ==>
              Accepted(ncomps, script)
  {
    var p := script[0].ss != 0 || script[0].se != 63;
    if Steps(p, ncomps, script) {
      forall c: int
        ensures SentTo(script, c, 0) != -1 <==> SentTo(script, c, 0) >= 0
      {
        SentAtLeast(p, ncomps, script, c, 0);
      }
    }
  }

  // ----- What accepted scripts promise -----

  lemma {:induction false} StepAt(progressive: bool, ncomps: int, script: Script, i: nat)
    requires Steps(progressive, ncomps, script) && i < |script|
    ensures Step(progressive, ncomps, script[..i], script[i])
    decreases |script|
  {
    hide Step;
    if i < |script| - 1 {
      StepAt(progressive, ncomps, script[..|script| - 1], i);
      assert script[..|script| - 1][..i] == script[..i];
    }
  }

  /** Once sent down to a bit, a coefficient has been sent by some scan, of which this is the Al. */
  lemma {:induction false} SentBySome(script: Script, c: int, k: int)
    requires SentTo(script, c, k) != -1
    ensures exists j :: 0 <= j < |script| && Sends(script[j], c, k)
    decreases |script|
  {
    var n := |script| - 1;
    if !Sends(script[n], c, k) {
      SentBySome(script[..n], c, k);
      var j :| 0 <= j < n && Sends(script[..n][j], c, k);
      assert Sends(script[j], c, k);
    }
  }

  /** As long as a coefficient is not sent again, it remains known to the same bit. */
  lemma {:induction false} SentToStays(script: Script, i: nat, j: nat, c: int, k: int)
    requires i < j <= |script| && Sends(script[i], c, k)
    requires forall m :: i < m < j ==> !Sends(script[m], c, k)
    ensures SentTo(script[..j], c, k) == script[i].al
    decreases j
  {
    hide Sends;
    assert script[..j][..j - 1] == script[..j - 1];
    if i < j - 1 {
      SentToStays(script, i, j - 1, c, k);
    }
  }

  /** Bit planes are sent contiguously: the next scan of a coefficient sends exactly the next bit. */
  lemma NextScanSendsNextBit(ncomps: int, script: Script, i: nat, j: nat, c: int, k: int)
    requires Accepted(ncomps, script) && IsProgressive(script) && i < j < |script|
    requires Sends(script[i], c, k) && Sends(script[j], c, k) && forall m :: i < m < j ==> !Sends(script[m], c, k)
    ensures script[j].ah == script[i].al && script[j].al == script[i].al - 1
  {
    hide Sends, Includes, ComponentsOk, SentTo;
    StepAt(true, ncomps, script, i);
    StepAt(true, ncomps, script, j);
    SentToStays(script, i, j, c, k);
  }

  /** No bit plane of a coefficient is sent twice, and later scans send lower bits. */
  lemma {:induction false} BitsDescend(ncomps: int, script: Script, i: nat, j: nat, c: int, k: int)
    requires Accepted(ncomps, script) && IsProgressive(script) && i < j < |script|
    requires Sends(script[i], c, k) && Sends(script[j], c, k)
    ensures script[j].al < script[i].al
    decreases j - i
  {
    hide Sends, Accepted;
    if forall m :: i < m < j ==> !Sends(script[m], c, k) {
      NextScanSendsNextBit(ncomps, script, i, j, c, k);
    } else {
      var m :| i < m < j && Sends(script[m], c, k);
      BitsDescend(ncomps, script, i, m, c, k);
      BitsDescend(ncomps, script, m, j, c, k);
    }
  }

  /** The first scan of a coefficient sends all its bits down to Al at once. */
  lemma FirstScanStartsAtZero(ncomps: int, script: Script, i: nat, c: int, k: int)
    requires Accepted(ncomps, script) && IsProgressive(script) && i < |script|
    requires Sends(script[i], c, k) && forall m :: 0 <= m < i ==> !Sends(script[m], c, k)
    ensures script[i].ah == 0
  {
    hide ComponentsOk, SentTo, Includes, Sends;
    StepAt(true, ncomps, script, i);
    NeverSent(script, i, c, k);
  }

  lemma {:induction false} NeverSent(script: Script, i: nat, c: int, k: int)
    requires i <= |script| && forall m :: 0 <= m < i ==> !Sends(script[m], c, k)
    ensures SentTo(script[..i], c, k) == -1
    decreases i
  {
    hide Sends;
    if i > 0 {
      assert script[..i][..i - 1] == script[..i - 1];
      NeverSent(script, i - 1, c, k);
    }
  }

  /** DC before AC. */
  lemma DcBeforeAc(ncomps: int, script: Script, i: nat, c: int, k: int)
    requires Accepted(ncomps, script) && IsProgressive(script) && i < |script| && Sends(script[i], c, k) && k > 0
    ensures exists j :: 0 <= j < i && Sends(script[j], c, 0)
  {
    hide ComponentsOk, SentTo, Includes;
    StepAt(true, ncomps, script, i);
    SentBySome(script[..i], c, 0);
    var j :| 0 <= j < i && Sends(script[..i][j], c, 0);
    assert Sends(script[j], c, 0);
  }

  /** In an accepted sequential script each component is sent exactly once. */
  lemma SequentialOnce(ncomps: int, script: Script, c: int)
    requires Accepted(ncomps, script) && !IsProgressive(script) && 0 <= c < ncomps
    ensures exists i :: 0 <= i < |script| && Includes(script[i], c)
    ensures forall i, j :: 0 <= i < j < |script| && Includes(script[i], c) ==> !Includes(script[j], c)
  {
    hide ComponentsOk, Includes;
    SentBySome(script, c, 0);
    forall i, j | 0 <= i < j < |script| && Includes(script[i], c)
      ensures !Includes(script[j], c)
    {
      StepAt(false, ncomps, script, i);
      StepAt(false, ncomps, script, j);
      SentOnce(ncomps, script, i, j, c);
    }
  }

  lemma {:induction false} SentOnce(ncomps: int, script: Script, i: nat, j: nat, c: int)
    requires Steps(false, ncomps, script) && i < j <= |script| && Includes(script[i], c)
    ensures SentTo(script[..j], c, 0) >= 0
    decreases j
  {
    hide ComponentsOk, Includes;
    assert script[..j][..j - 1] == script[..j - 1];
    StepAt(false, ncomps, script, j - 1);
    if i < j - 1 {
      SentOnce(ncomps, script, i, j - 1, c);
    }
  }

  // ----- The validator -----

  datatype Verdict = Valid(progressive: bool) | NoScans | BadComponentCount(scan: nat) | BadScan(scan: nat) | BadProgression(scan: nat) | MissingData

  /** last_bitpos tells for every coefficient to which bit it has been sent. */
  ghost predicate Tabulates(table: array2<int>, before: Script, ncomps: int)
    reads table
  {
    && table.Length0 == MAX_COMPONENTS && table.Length1 == DCTSIZE2 && 0 <= ncomps <= MAX_COMPONENTS
    && forall c, k :: 0 <= c < ncomps && 0 <= k < DCTSIZE2 ==> table[c, k] == SentTo(before, c, k)
  }

  /** The component indexes of a scan. */
  method CheckComponents(s: ScanInfo, ncomps: int) returns (ok: bool)
    requires 1 <= s.compsInScan <= MAX_COMPS_IN_SCAN
    ensures ok <==> ComponentsOk(s, ncomps)
  {
    for ci := 0 to s.compsInScan
      invariant forall i :: 0 <= i < ci ==> 0 <= s.index[i] < ncomps
      invariant forall i :: 0 < i < ci ==> s.index[i - 1] < s.index[i]
    {
      var thisi := s.index[ci];
      if thisi < 0 || thisi >= ncomps {
        return false;
      }
      if ci > 0 && thisi <= s.index[ci - 1] {
        return false;
      }
    }
    return true;
  }

  /** The bit positions of one component's coefficients in a progressive scan. */
  method CheckBand(table: array2<int>, s: ScanInfo, c: int) returns (ok: bool)
    requires table.Length0 == MAX_COMPONENTS && table.Length1 == DCTSIZE2 && 0 <= c < MAX_COMPONENTS && BandOk(s)
    modifies table
    ensures ok <==> (s.ss != 0 ==> old(table[c, 0]) >= 0) && forall k :: s.ss <= k <= s.se ==> Continues(old(table[c, k]), s.ah, s.al)
    ensures ok ==> forall k :: 0 <= k < DCTSIZE2 ==> table[c, k] == if s.ss <= k <= s.se then s.al else old(table[c, k])
    ensures forall d, k :: 0 <= d < MAX_COMPONENTS && d != c && 0 <= k < DCTSIZE2 ==> table[d, k] == old(table[d, k])
  {
    if s.ss != 0 && table[c, 0] < 0 {
      return false;
    }
    for k := s.ss to s.se + 1
      invariant forall j :: s.ss <= j < k ==> Continues(old(table[c, j]), s.ah, s.al) && table[c, j] == s.al
      invariant forall j :: 0 <= j < DCTSIZE2 && !(s.ss <= j < k) ==> table[c, j] == old(table[c, j])
      invariant forall d, j :: 0 <= d < MAX_COMPONENTS && d != c && 0 <= j < DCTSIZE2 ==> table[d, j] == old(table[d, j])
    {
      if table[c, k] < 0 {
        if s.ah != 0 {
          return false;
        }
      } else {
        if s.ah != table[c, k] || s.al != s.ah - 1 {
          return false;
        }
      }
      table[c, k] := s.al;
    }
    return true;
  }

  /** One scan of a progressive script. */
  method CheckProgressive(table: array2<int>, ghost before: Script, s: ScanInfo, ncomps: int) returns (ok: bool)
    requires Tabulates(table, before, ncomps) && ComponentsOk(s, ncomps)
    modifies table
    ensures ok <==> ProgressiveStep(before, s)
    ensures ok ==> Tabulates(table, before + [s], ncomps)
  {
    if s.ss < 0 || s.ss >= DCTSIZE2 || s.se < s.ss || s.se >= DCTSIZE2 || s.ah < 0 || s.ah > MAX_AH_AL || s.al < 0 || s.al > MAX_AH_AL {
      return false;
    }
    if s.ss == 0 {
      if s.se != 0 {
        return false;
      }
    } else {
      if s.compsInScan != 1 {
        return false;
      }
    }
    for ci := 0 to s.compsInScan
      invariant forall c, k :: 0 <= c < ncomps && 0 <= k < DCTSIZE2 ==>
                  table[c, k] == if IncludesBelow(s, c, ci) && s.ss <= k <= s.se then s.al else SentTo(before, c, k)
      invariant forall c :: IncludesBelow(s, c, ci) ==> ComponentStep(before, s, c)
    {
      var c := s.index[ci];
      NotYet(s, ncomps, ci);
      var ok := CheckBand(table, s, c);
      if !ok {
        assert Includes(s, c);
        BandStep(before, s, c);
        return false;
      }
      BandStep(before, s, c);
      IncludesOneMore(s, ci);
    }
    AllComponents(before, s);
    AfterScan(table, before, s, ncomps);
    return true;
  }

  ghost predicate IncludesBelow(s: ScanInfo, c: int, n: int)
  {
    exists i :: 0 <= i < n && i < |s.index| && s.index[i] == c
  }

  /** What is required of a scan for one of its components. */
  ghost predicate ComponentStep(before: Script, s: ScanInfo, c: int)
  {
    && (s.ss != 0 ==> SentTo(before, c, 0) >= 0)
    && forall k :: s.ss <= k <= s.se ==> Continues(SentTo(before, c, k), s.ah, s.al)
  }

  lemma NotYet(s: ScanInfo, ncomps: int, ci: int)
    requires ComponentsOk(s, ncomps) && 0 <= ci < s.compsInScan
    ensures !IncludesBelow(s, s.index[ci], ci) && 0 <= s.index[ci] < ncomps
  {
    Increasing(s, ncomps, ci);
  }

  lemma {:induction false} Increasing(s: ScanInfo, ncomps: int, ci: int)
    requires ComponentsOk(s, ncomps) && 0 <= ci < s.compsInScan
    ensures forall i :: 0 <= i < ci ==> s.index[i] < s.index[ci]
    decreases ci
  {
    if ci > 0 {
      Increasing(s, ncomps, ci - 1);
    }
  }

  lemma IncludesOneMore(s: ScanInfo, ci: int)
    requires 0 <= ci < |s.index|
    ensures forall c :: IncludesBelow(s, c, ci + 1) <==> IncludesBelow(s, c, ci) || c == s.index[ci]
  {
    forall c
      ensures IncludesBelow(s, c, ci + 1) <==> IncludesBelow(s, c, ci) || c == s.index[ci]
    {
      if IncludesBelow(s, c, ci) {
        var i :| 0 <= i < ci && s.index[i] == c;
        assert s.index[i] == c && i < ci + 1;
      }
      if c == s.index[ci] {
        assert ci < ci + 1 && s.index[ci] == c;
      }
    }
  }

  lemma BandStep(before: Script, s: ScanInfo, c: int)
    requires BandOk(s) && Includes(s, c)
    ensures ProgressiveStep(before, s) ==> ComponentStep(before, s, c)
  {
    hide Includes, SentTo;
    if ProgressiveStep(before, s) {
      forall k | s.ss <= k <= s.se
        ensures Continues(SentTo(before, c, k), s.ah, s.al)
      {
        assert Sends(s, c, k);
      }
    }
  }

  lemma AllComponents(before: Script, s: ScanInfo)
    requires BandOk(s) && s.compsInScan <= MAX_COMPS_IN_SCAN
    requires forall c :: IncludesBelow(s, c, s.compsInScan) ==> ComponentStep(before, s, c)
    ensures ProgressiveStep(before, s)
  {
    hide SentTo;
    forall c | Includes(s, c)
      ensures ComponentStep(before, s, c)
    {
      assert IncludesBelow(s, c, s.compsInScan);
    }
  }

  lemma AfterScan(table: array2<int>, before: Script, s: ScanInfo, ncomps: int)
    requires table.Length0 == MAX_COMPONENTS && table.Length1 == DCTSIZE2 && 0 <= ncomps <= MAX_COMPONENTS
    requires forall c, k :: 0 <= c < ncomps && 0 <= k < DCTSIZE2 ==>
               table[c, k] == if IncludesBelow(s, c, s.compsInScan) && s.ss <= k <= s.se then s.al else SentTo(before, c, k)
    ensures Tabulates(table, before + [s], ncomps)
  {
    assert (before + [s])[..|before|] == before;
  }

  /** One scan of a sequential script. */
  method CheckSequential(sent: array<bool>, ghost before: Script, s: ScanInfo, ncomps: int) returns (ok: bool, inBand: bool)
    requires sent.Length == MAX_COMPONENTS && 0 <= ncomps <= MAX_COMPONENTS && ComponentsOk(s, ncomps)
    requires forall c :: 0 <= c < ncomps ==> (sent[c] <==> SentTo(before, c, 0) >= 0)
    modifies sent
    ensures ok <==> SequentialStep(before, s)
    ensures inBand <==> s.ss == 0 && s.se == DCTSIZE2 - 1 && s.ah == 0 && s.al == 0
    ensures ok ==> forall c :: 0 <= c < ncomps ==> (sent[c] <==> SentTo(before + [s], c, 0) >= 0)
  {
    if s.ss != 0 || s.se != DCTSIZE2 - 1 || s.ah != 0 || s.al != 0 {
      return false, false;
    }
    for ci := 0 to s.compsInScan
      invariant forall c :: 0 <= c < ncomps ==> (sent[c] <==> IncludesBelow(s, c, ci) || SentTo(before, c, 0) >= 0)
      invariant forall c :: IncludesBelow(s, c, ci) ==> SentTo(before, c, 0) < 0
    {
      var thisi := s.index[ci];
      NotYet(s, ncomps, ci);
      if sent[thisi] {
        assert Includes(s, thisi);
        return false, true;
      }
      sent[thisi] := true;
      IncludesOneMore(s, ci);
    }
    SequentialDone(before, s);
    return true, true;
  }

  lemma SequentialDone(before: Script, s: ScanInfo)
    requires s.compsInScan <= MAX_COMPS_IN_SCAN
    requires s.ss == 0 && s.se == DCTSIZE2 - 1 && s.ah == 0 && s.al == 0
    requires forall c :: IncludesBelow(s, c, s.compsInScan) ==> SentTo(before, c, 0) < 0
    ensures SequentialStep(before, s)
    ensures forall c :: SentTo(before + [s], c, 0) >= 0 <==> IncludesBelow(s, c, s.compsInScan) || SentTo(before, c, 0) >= 0
  {
    assert (before + [s])[..|before|] == before;
    forall c
      ensures Includes(s, c) <==> IncludesBelow(s, c, s.compsInScan)
    {
    }
  }

  /**
   validate_script: accepts exactly the right scripts, tells which of them are progressive, and
   otherwise names the first scan that is wrong.
   */
  method ValidateScript(script: Script, ncomps: int) returns (v: Verdict)
    requires 1 <= ncomps <= MAX_COMPONENTS
    ensures v.Valid? <==> Accepted(ncomps, script)
    ensures v.Valid? ==> v.progressive == IsProgressive(script)
    ensures v.NoScans? <==> script == []
    ensures v.BadComponentCount? || v.BadScan? || v.BadProgression? ==>
              && 1 <= v.scan <= |script| && Steps(IsProgressive(script), ncomps, script[..v.scan - 1])
              && !Step(IsProgressive(script), ncomps, script[..v.scan - 1], script[v.scan - 1])
    ensures v.MissingData? ==> script != [] && Steps(IsProgressive(script), ncomps, script)
  {
    hide SentTo, ProgressiveStep, SequentialStep, ComponentsOk;
    if |script| == 0 {
      return NoScans;
    }
    var table := new int[MAX_COMPONENTS, DCTSIZE2]((_, _) => -1);
    var sent := new bool[MAX_COMPONENTS](_ => false);
    var progressive := script[0].ss != 0 || script[0].se != DCTSIZE2 - 1;
    NothingSentYet();
    assert script[..0] == [];
    for scanno := 0 to |script|
      invariant Steps(progressive, ncomps, script[..scanno])
      invariant progressive ==> Tabulates(table, script[..scanno], ncomps)
      invariant !progressive ==> forall c :: 0 <= c < ncomps ==> (sent[c] <==> SentTo(script[..scanno], c, 0) >= 0)
    {
      var s := script[scanno];
      assert script[..scanno + 1] == script[..scanno] + [s];
      if s.compsInScan <= 0 || s.compsInScan > MAX_COMPS_IN_SCAN {
        CountMatters(s, ncomps);
        StepsFailAt(progressive, ncomps, script, scanno);
        return BadComponentCount(scanno + 1);
      }
      var ok := CheckComponents(s, ncomps);
      if !ok {
        StepsFailAt(progressive, ncomps, script, scanno);
        return BadScan(scanno + 1);
      }
      if progressive {
        ok := CheckProgressive(table, script[..scanno], s, ncomps);
        if !ok {
          StepsFailAt(progressive, ncomps, script, scanno);
          return BadProgression(scanno + 1);
        }
      } else {
        var inBand;
        ok, inBand := CheckSequential(sent, script[..scanno], s, ncomps);
        if !ok {
          StepsFailAt(progressive, ncomps, script, scanno);
          return if inBand then BadScan(scanno + 1) else BadProgression(scanno + 1);
        }
      }
    }
    assert script[..|script|] == script;
    for ci := 0 to ncomps
      invariant forall c :: 0 <= c < ci ==> SentTo(script, c, 0) >= 0
    {
      if (if progressive then table[ci, 0] < 0 else !sent[ci]) {
        return MissingData;
      }
    }
    return Valid(progressive);
  }

  lemma NothingSentYet()
    ensures forall c, k :: SentTo([], c, k) == -1
  {
  }

  lemma CountMatters(s: ScanInfo, ncomps: int)
    requires s.compsInScan <= 0 || s.compsInScan > MAX_COMPS_IN_SCAN
    ensures !ComponentsOk(s, ncomps)
  {
  }

  lemma StepsFailAt(progressive: bool, ncomps: int, script: Script, i: nat)
    requires i < |script| && !Step(progressive, ncomps, script[..i], script[i])
    ensures !Steps(progressive, ncomps, script)
  {
    hide Step;
    if Steps(progressive, ncomps, script) {
      StepAt(progressive, ncomps, script, i);
    }
  }
}
