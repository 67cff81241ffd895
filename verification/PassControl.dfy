/**
 The pass state machine of the compressor: prepare_for_pass, pass_startup and finish_pass_master
 (jpeg/jcmaster.c), driven by jpeg_finish_compress (jpeg/jcapimin.c). For every script it produces
 each scan once, in order, after its statistics.
 */
module PassControl {
  import opened ScanScript

  datatype PassType = MainPass | HuffOptPass | OutputPass

  /** What goes on outside: headers are written, and all MCU rows of a scan are counted or output. */
  datatype Event = FrameHeader | ScanHeader(scan: nat) | Statistics(scan: nat) | Output(scan: nat)

  /** DC refinement scans need no Huffman table. */
  predicate NeedsNoTable(s: ScanInfo)
  {
    s.ss == 0 && s.ah != 0
  }

  /** The statistics pass of scan i is left out; but the first pass of a normal compression never is. */
  predicate SkipsStatistics(scans: Script, i: nat, transcode: bool)
    requires i < |scans|
  {
    NeedsNoTable(scans[i]) && (i > 0 || transcode)
  }

  /** What is to happen for scan i. */
  function ForScan(scans: Script, i: nat, optimize: bool, transcode: bool): seq<Event>
    requires i < |scans|
  {
    (if optimize && !SkipsStatistics(scans, i, transcode) then [Statistics(i)] else [])
    + (if i == 0 then [FrameHeader] else []) + [ScanHeader(i), Output(i)]
  }

  /** What is to happen for the first n scans. */
  function Expected(scans: Script, n: nat, optimize: bool, transcode: bool): seq<Event>
    requires n <= |scans|
  {
    if n == 0 then [] else Expected(scans, n - 1, optimize, transcode) + ForScan(scans, n - 1, optimize, transcode)
  }

  /** Master control; scans is the script, or the one scan that is made up if there is none. */
  class Master {
    const scans: Script
    const optimize: bool
    const transcode: bool
    const totalPasses: nat
    var passType: PassType
    var passNumber: nat
    var scanNumber: nat
    var callPassStartup: bool
    var isLastPass: bool
    var curScan: nat
    var gather: bool
    var trace: seq<Event>

    /** jinit_c_master_control, for a script that has been validated. Progressive coding always optimises. */
    constructor (scans: Script, optimize: bool, transcode: bool)
      requires scans != []
      ensures this.scans == scans && this.transcode == transcode && this.optimize == (optimize || IsProgressive(scans))
      ensures this.optimize <==> optimize || scans[0].ss != 0 || scans[0].se != 63
      ensures trace == [] && !isLastPass && Valid() && scanNumber == 0
    {
      var opt := optimize || IsProgressive(scans);
      this.scans, this.transcode, this.optimize := scans, transcode, opt;
      passType := if !transcode then MainPass else if opt then HuffOptPass else OutputPass;
      scanNumber, passNumber, totalPasses := 0, 0, if opt then |scans| * 2 else |scans|;
      callPassStartup, isLastPass, curScan, gather, trace := false, false, 0, false, [];
    }

    /** Between passes, when there is another one to come. */
    ghost predicate Valid()
      reads this
    {
      && scanNumber < |scans| && totalPasses == (if optimize then 2 * |scans| else |scans|) && !callPassStartup
      && match passType
         case MainPass => scanNumber == passNumber == 0 && !transcode && trace == []
         case HuffOptPass =>
           optimize && passNumber == 2 * scanNumber && (scanNumber > 0 || transcode)
           && trace == Expected(scans, scanNumber, optimize, transcode)
         case OutputPass =>
           if optimize then
             passNumber == 2 * scanNumber + 1 && curScan == scanNumber && !SkipsStatistics(scans, scanNumber, transcode)
             && trace == Expected(scans, scanNumber, optimize, transcode) + [Statistics(scanNumber)]
           else passNumber == scanNumber && (scanNumber > 0 || transcode) && trace == Expected(scans, scanNumber, optimize, transcode)
    }

    /** The pass that has been prepared has still to be run. */
    ghost predicate Prepared()
      reads this
    {
      && scanNumber < |scans| && totalPasses == (if optimize then 2 * |scans| else |scans|)
      && curScan == scanNumber && passNumber < totalPasses
      && isLastPass == (!gather && scanNumber == |scans| - 1)
      && (callPassStartup ==> passType == MainPass && !gather)
      && var before := Expected(scans, scanNumber, optimize, transcode);
         match passType
         case MainPass => !transcode && scanNumber == passNumber == 0 && gather == optimize && trace == [] && (callPassStartup <==> !optimize)
         case HuffOptPass =>
           optimize && passNumber == 2 * scanNumber && gather && !SkipsStatistics(scans, scanNumber, transcode) && trace == before
         case OutputPass =>
           passNumber == (if optimize then 2 * scanNumber + 1 else scanNumber) && !gather
           && trace + [Output(scanNumber)] == before + ForScan(scans, scanNumber, optimize, transcode)
    }

    /** select_scan_parameters: the scan number must be within the script. */
    method SelectScanParameters()
      requires scanNumber < |scans|
      modifies this`curScan
      ensures curScan == scanNumber
    {
      curScan := scanNumber;
    }

    method PrepareForPass()
      requires Valid()
      modifies this
      ensures Prepared() && scanNumber == old(scanNumber) && passNumber >= old(passNumber)
    {
      hide Expected, ForScan;
      ghost var n, sofar := scanNumber, Expected(scans, scanNumber, optimize, transcode);
      OutputEvents(scans, n, optimize, transcode, sofar);
      match passType {
        case MainPass =>
          SelectScanParameters();
          gather := optimize;
          callPassStartup := !optimize;
        case HuffOptPass =>
          SelectScanParameters();
          if scans[curScan].ss != 0 || scans[curScan].ah == 0 {
            gather := true;
            callPassStartup := false;
          } else {
            passType := OutputPass;
            passNumber := passNumber + 1;
            StartOutput();
          }
        case OutputPass =>
          StartOutput();
      }
      isLastPass := passNumber == totalPasses - 1;
    }

    /** The output_pass case of prepare_for_pass. */
    method StartOutput()
      requires scanNumber < |scans| && (optimize ==> curScan == scanNumber)
      modifies this`curScan, this`gather, this`trace, this`callPassStartup
      ensures curScan == scanNumber && !gather && !callPassStartup
      ensures trace == old(trace) + (if scanNumber == 0 then [FrameHeader] else []) + [ScanHeader(scanNumber)]
    {
      if !optimize {
        SelectScanParameters();
      }
      gather := false;
      if scanNumber == 0 {
        trace := trace + [FrameHeader];
      }
      trace := trace + [ScanHeader(curScan)];
      callPassStartup := false;
    }

    /** pass_startup, called before the first row of a pass that asks for it. */
    method PassStartup()
      requires callPassStartup
      modifies this`callPassStartup, this`trace
      ensures !callPassStartup && trace == old(trace) + [FrameHeader, ScanHeader(curScan)]
    {
      callPassStartup := false;
      trace := trace + [FrameHeader];
      trace := trace + [ScanHeader(curScan)];
    }

    /** All MCU rows of a pass, after its startup hook if it has one. */
    method RunRows()
      requires Prepared()
      modifies this`callPassStartup, this`trace
      ensures !callPassStartup
      ensures trace == old(trace) + (if old(callPassStartup) then [FrameHeader, ScanHeader(curScan)] else [])
                       + [if gather then Statistics(curScan) else Output(curScan)]
    {
      if callPassStartup {
        PassStartup();
      }
      trace := trace + [if gather then Statistics(curScan) else Output(curScan)];
    }

    /** finish_pass_master. */
    method FinishPassMaster()
      modifies this`passType, this`passNumber, this`scanNumber
      ensures passNumber == old(passNumber) + 1
      ensures passType == if old(passType) == OutputPass && optimize then HuffOptPass else OutputPass
      ensures scanNumber == match old(passType)
                            case MainPass => if optimize then old(scanNumber) else old(scanNumber) + 1
                            case HuffOptPass => old(scanNumber)
                            case OutputPass => old(scanNumber) + 1
    {
      match passType {
        case MainPass =>
          passType := OutputPass;
          if !optimize {
            scanNumber := scanNumber + 1;
          }
        case HuffOptPass =>
          passType := OutputPass;
        case OutputPass =>
          if optimize {
            passType := HuffOptPass;
          }
          scanNumber := scanNumber + 1;
      }
      passNumber := passNumber + 1;
    }

    /** One pass from its preparation to its end: either more passes follow, or everything has been output. */
    method RunPass()
      requires Prepared()
      modifies this
      ensures isLastPass == old(isLastPass) && passNumber == old(passNumber) + 1
      ensures !isLastPass ==> Valid()
      ensures isLastPass ==> trace == Expected(scans, |scans|, optimize, transcode) && passNumber == totalPasses
    {
      ghost var n, before := scanNumber, Expected(scans, scanNumber, optimize, transcode);
      RunRows();
      FinishPassMaster();
      if !gather {
        assert trace == before + ForScan(scans, n, optimize, transcode);
        assert Expected(scans, n + 1, optimize, transcode) == trace;
      }
    }

    /**
     A compression: the first pass, unless coefficients are transcoded, then the loop of
     jpeg_finish_compress. Every scan is output once and in order, with its header before it and its
     statistics before that; the frame header comes once, before all scan headers; and the number
     of passes is as announced.
     */
    method Compress()
      requires Valid() && scanNumber == 0 && passNumber == 0 && !isLastPass && trace == []
      modifies this
      ensures trace == Expected(scans, |scans|, optimize, transcode)
      ensures passNumber == totalPasses == |scans| * if optimize then 2 else 1
      ensures forall i :: 0 <= i < |scans| ==>
                multiset(trace)[Statistics(i)]
                == if optimize && (scans[i].ss != 0 || scans[i].ah == 0 || (i == 0 && !transcode)) then 1 else 0
    {
      forall i | 0 <= i < |scans|
        ensures multiset(Expected(scans, |scans|, optimize, transcode))[Statistics(i)]
                == if optimize && (scans[i].ss != 0 || scans[i].ah == 0 || (i == 0 && !transcode)) then 1 else 0
      {
        StatisticsOnce(scans, |scans|, optimize, transcode, i);
      }
      if !transcode {
        PrepareForPass();
        RunPass();
      }
      while !isLastPass
        invariant !isLastPass ==> Valid()
        invariant isLastPass ==> trace == Expected(scans, |scans|, optimize, transcode) && passNumber == totalPasses
        decreases totalPasses - passNumber, !isLastPass
      {
        PrepareForPass();
        RunPass();
      }
    }
  }

  /** The output pass of a scan completes what is to happen for it. */
  lemma OutputEvents(scans: Script, i: nat, optimize: bool, transcode: bool, before: seq<Event>)
    requires i < |scans|
    ensures var frame: seq<Event> := if i == 0 then [FrameHeader] else [];
            && (optimize && !SkipsStatistics(scans, i, transcode) ==>
                  before + [Statistics(i)] + frame + [ScanHeader(i)] + [Output(i)] == before + ForScan(scans, i, optimize, transcode))
            && (!optimize || SkipsStatistics(scans, i, transcode) ==>
                  before + frame + [ScanHeader(i)] + [Output(i)] == before + ForScan(scans, i, optimize, transcode))
  {
  }

  // ----- What the expected order of events means -----

  lemma {:induction false} EventIn(scans: Script, n: nat, optimize: bool, transcode: bool, e: Event)
    requires n <= |scans|
    ensures e in Expected(scans, n, optimize, transcode) <==> exists i :: 0 <= i < n && e in ForScan(scans, i, optimize, transcode)
  {
    hide ForScan;
    if n > 0 {
      EventIn(scans, n - 1, optimize, transcode, e);
    }
  }

  /** Each scan is output exactly once. */
  lemma {:induction false} OutputOnce(scans: Script, n: nat, optimize: bool, transcode: bool, i: nat)
    requires n <= |scans|
    ensures multiset(Expected(scans, n, optimize, transcode))[Output(i)] == (if i < n then 1 else 0)
    ensures multiset(Expected(scans, n, optimize, transcode))[FrameHeader] == (if n > 0 then 1 else 0)
  {
    if n > 0 {
      OutputOnce(scans, n - 1, optimize, transcode, i);
      var a, b := Expected(scans, n - 1, optimize, transcode), ForScan(scans, n - 1, optimize, transcode);
      assert multiset(a + b) == multiset(a) + multiset(b);
      CountFor(scans, n - 1, optimize, transcode, i);
    }
  }

  lemma CountFor(scans: Script, k: nat, optimize: bool, transcode: bool, i: nat)
    requires k < |scans|
    ensures multiset(ForScan(scans, k, optimize, transcode))[Output(i)] == (if i == k then 1 else 0)
    ensures multiset(ForScan(scans, k, optimize, transcode))[FrameHeader] == (if k == 0 then 1 else 0)
  {
    var x, y: seq<Event>, z := if optimize && !SkipsStatistics(scans, k, transcode) then [Statistics(k)] else [],
                               if k == 0 then [FrameHeader] else [], [ScanHeader(k), Output(k)];
    assert ForScan(scans, k, optimize, transcode) == x + y + z;
    assert multiset(x + y + z) == multiset(x) + multiset(y) + multiset(z);
  }

  /**
   With optimisation, a scan has one statistics pass, unless it is a DC refinement scan, which has
   none; but in a normal compression the first pass gathers statistics whatever the first scan is.
   */
  lemma {:induction false} StatisticsOnce(scans: Script, n: nat, optimize: bool, transcode: bool, i: nat)
    requires n <= |scans| && i < |scans|
    ensures multiset(Expected(scans, n, optimize, transcode))[Statistics(i)]
            == if i < n && optimize && (scans[i].ss != 0 || scans[i].ah == 0 || (i == 0 && !transcode)) then 1 else 0
    ensures multiset(Expected(scans, n, optimize, transcode))[ScanHeader(i)] == if i < n then 1 else 0
  {
    hide ForScan, SkipsStatistics;
    if n > 0 {
      StatisticsOnce(scans, n - 1, optimize, transcode, i);
      var a, b := Expected(scans, n - 1, optimize, transcode), ForScan(scans, n - 1, optimize, transcode);
      assert multiset(a + b) == multiset(a) + multiset(b);
      StatisticsFor(scans, n - 1, optimize, transcode, i);
    }
  }

  lemma StatisticsFor(scans: Script, k: nat, optimize: bool, transcode: bool, i: nat)
    requires k < |scans|
    ensures multiset(ForScan(scans, k, optimize, transcode))[Statistics(i)]
            == if i == k && optimize && (scans[k].ss != 0 || scans[k].ah == 0 || (k == 0 && !transcode)) then 1 else 0
    ensures multiset(ForScan(scans, k, optimize, transcode))[ScanHeader(i)] == if i == k then 1 else 0
  {
    var x, y: seq<Event>, z := if optimize && !SkipsStatistics(scans, k, transcode) then [Statistics(k)] else [],
                               if k == 0 then [FrameHeader] else [], [ScanHeader(k), Output(k)];
    assert ForScan(scans, k, optimize, transcode) == x + y + z;
    assert multiset(x + y + z) == multiset(x) + multiset(y) + multiset(z);
  }

  /** Every scan's output comes right after its header. */
  lemma {:induction false} HeaderBeforeOutput(scans: Script, n: nat, optimize: bool, transcode: bool, k: nat)
    requires n <= |scans| && k < |Expected(scans, n, optimize, transcode)|
    ensures match Expected(scans, n, optimize, transcode)[k]
            case Output(i) => i < n && k > 0 && Expected(scans, n, optimize, transcode)[k - 1] == ScanHeader(i)
            case ScanHeader(i) => i < n
            case Statistics(i) => i < n
            case FrameHeader => true
  {
    hide SkipsStatistics;
    if k < |Expected(scans, n - 1, optimize, transcode)| {
      HeaderBeforeOutput(scans, n - 1, optimize, transcode, k);
    }
  }

  /** The frame header comes before every scan header, after nothing but the statistics of the first scan. */
  lemma {:induction false} FrameHeaderFirst(scans: Script, n: nat, optimize: bool, transcode: bool)
    requires 0 < n <= |scans|
    ensures var all := Expected(scans, n, optimize, transcode);
            var f := if optimize && !SkipsStatistics(scans, 0, transcode) then 1 else 0;
            f < |all| && all[f] == FrameHeader && forall k :: 0 <= k < f ==> all[k] == Statistics(0)
  {
    hide SkipsStatistics;
    if n > 1 {
      FrameHeaderFirst(scans, n - 1, optimize, transcode);
    } else {
      assert Expected(scans, 0, optimize, transcode) == [];
    }
  }

  /** Where a scan's statistics pass is not left out, it comes before the scan's output, after all earlier scans. */
  lemma {:induction false} StatisticsFirst(scans: Script, n: nat, optimize: bool, transcode: bool, k: nat, i: nat)
    requires n <= |scans| && k < |Expected(scans, n, optimize, transcode)| && i < |scans|
    requires Expected(scans, n, optimize, transcode)[k] == Output(i) && optimize && !SkipsStatistics(scans, i, transcode)
    ensures exists j :: 0 <= j < k && Expected(scans, n, optimize, transcode)[j] == Statistics(i)
                        && forall m :: j < m < k ==> !Expected(scans, n, optimize, transcode)[m].Output?
  {
    hide SkipsStatistics;
    var before, all := Expected(scans, n - 1, optimize, transcode), Expected(scans, n, optimize, transcode);
    if k < |before| {
      StatisticsFirst(scans, n - 1, optimize, transcode, k, i);
      var j :| 0 <= j < k && before[j] == Statistics(i) && forall m :: j < m < k ==> !before[m].Output?;
      assert all[j] == Statistics(i) && forall m :: j < m < k ==> !all[m].Output?;
    } else {
      HeaderBeforeOutput(scans, n, optimize, transcode, k);
      assert all[|before|] == Statistics(i) && forall m :: |before| < m < k ==> !all[m].Output?;
    }
  }

  /** Scans are output in the order of the script. */
  lemma {:induction false} OutputsInOrder(scans: Script, n: nat, optimize: bool, transcode: bool, j: nat, k: nat)
    requires n <= |scans| && j < k < |Expected(scans, n, optimize, transcode)|
    requires Expected(scans, n, optimize, transcode)[j].Output? && Expected(scans, n, optimize, transcode)[k].Output?
    ensures Expected(scans, n, optimize, transcode)[j].scan < Expected(scans, n, optimize, transcode)[k].scan
  {
    hide SkipsStatistics;
    var before := Expected(scans, n - 1, optimize, transcode);
    if k < |before| {
      OutputsInOrder(scans, n - 1, optimize, transcode, j, k);
    } else if j < |before| {
      HeaderBeforeOutput(scans, n - 1, optimize, transcode, j);
    }
  }
}
