/**
 The load-stream guard of src/wrtmtester/WrtmN2xWrapper.py: two flags,
 `inited` and `running`, decide which instrument commands starting,
 stopping and shutting down issue. The configuration sequence of
 `initN2X` is not modelled; only the flag it sets is.
 */
module Wrapper {
  import opened Instrument

  /** The wrapper's own flags and the `inited` flag of its interface object. */
  datatype Wrapper = Wrapper(inited: bool, running: bool, n2xInited: bool)

  /** The state after an operation and the commands it issued, in order. */
  datatype Effect = Effect(w: Wrapper, trace: seq<Command>)

  /** A freshly constructed wrapper. */
  const Fresh := Wrapper(false, false, false)

  /** Streams only run on an initialised instrument. */
  predicate Consistent(w: Wrapper) {
    w.running ==> w.inited
  }

  /** `_startLoadStreams`. */
  function StartLoadStreams(w: Wrapper): (e: Effect)
    ensures e.w.inited == w.inited && e.w.n2xInited == w.n2xInited
    ensures w.inited ==> e.w.running && e.trace == [StartCapture, StartTest]
    ensures !w.inited ==> e == Effect(w, [])
  {
    if w.inited then Effect(w.(running := true), [StartCapture, StartTest]) else Effect(w, [])
  }

  /** `_stopLoadStreams`: the flag is cleared before the commands are issued. */
  function StopLoadStreams(w: Wrapper): (e: Effect)
    ensures e.w.inited == w.inited && e.w.n2xInited == w.n2xInited
    ensures w.inited ==> !e.w.running && e.trace == [StopTest, StopCapture]
    ensures !w.inited ==> e == Effect(w, [])
  {
    if w.inited then Effect(w.(running := false), [StopTest, StopCapture]) else Effect(w, [])
  }

  /** `shutdownN2X`: stop running streams, then close the session and the
      proxy connection. */
  function Shutdown(w: Wrapper): (e: Effect)
    ensures !w.inited ==> e == Effect(w, [])
    ensures w.inited ==> !e.w.running
    ensures w.inited ==> |e.trace| >= 2 && e.trace[|e.trace| - 2..] == [CloseSession, DisconnectFromProxy]
  {
    if !w.inited then Effect(w, [])
    else
      var stopped := if w.running then StopLoadStreams(w) else Effect(w, []);
      Effect(stopped.w, stopped.trace + [CloseSession, DisconnectFromProxy])
  }

  /** `initN2X` as written: line 96 sets the interface's flag, not the wrapper's. */
  function InitN2XAsWritten(w: Wrapper): (r: Wrapper)
    ensures r.inited == w.inited && r.running == w.running && r.n2xInited
  {
    w.(n2xInited := true)
  }

  /** `initN2X` as the guards of the other methods expect it. */
  function InitN2X(w: Wrapper): (r: Wrapper)
    ensures r.inited && r.running == w.running
  {
    w.(inited := true, n2xInited := true)
  }

  /** Every operation keeps streams from running on an uninitialised instrument. */
  lemma OperationsKeepConsistent(w: Wrapper)
    requires Consistent(w)
    ensures Consistent(StartLoadStreams(w).w)
    ensures Consistent(StopLoadStreams(w).w)
    ensures Consistent(Shutdown(w).w)
    ensures Consistent(InitN2X(w)) && Consistent(InitN2XAsWritten(w))
  {
  }

  /** Starting then stopping issues the four commands in nesting order and
      leaves the streams stopped. */
  lemma StartStopCycle(w: Wrapper)
    requires w.inited
    ensures var s := StartLoadStreams(w); var t := StopLoadStreams(s.w);
      s.trace + t.trace == [StartCapture, StartTest, StopTest, StopCapture]
      && t.w == w.(running := false)
  {
  }

  /** Shutting down running streams first issues exactly what stopping them
      would, then closes the session and the proxy connection. */
  lemma ShutdownStopsFirst(w: Wrapper)
    requires w.inited && w.running
    ensures Shutdown(w).trace == StopLoadStreams(w).trace + [CloseSession, DisconnectFromProxy]
    ensures Shutdown(w).w == StopLoadStreams(w).w
  {
  }

  /** Without initialisation nothing is ever issued and nothing changes. */
  lemma UninitialisedIsInert(w: Wrapper)
    requires !w.inited
    ensures StartLoadStreams(w) == Effect(w, [])
    ensures StopLoadStreams(w) == Effect(w, [])
    ensures Shutdown(w) == Effect(w, [])
  {
  }

  /** The interface/method pairs a trace invokes on the proxy, in order;
      closing the session and disconnecting are not single calls. */
  function ProxyCalls(trace: seq<Command>): (r: seq<(string, string)>)
    ensures |r| <= |trace|
  {
    if |trace| == 0 then []
    else (match CommandCall(trace[0]) case Some(p) => [p] case None => []) + ProxyCalls(trace[1..])
  }

  /** Starting the streams starts the capture then the test; stopping them,
      directly or on shutdown, stops the test then the capture. */
  lemma StreamCalls(w: Wrapper)
    requires w.inited
    ensures ProxyCalls(StartLoadStreams(w).trace) ==
      [("AgtCaptureControl", "StartCapture"), ("AgtTestController", "StartTest")]
    ensures ProxyCalls(StopLoadStreams(w).trace) ==
      [("AgtTestController", "StopTest"), ("AgtCaptureControl", "StopCapture")]
    ensures ProxyCalls(Shutdown(w).trace) ==
      if w.running then [("AgtTestController", "StopTest"), ("AgtCaptureControl", "StopCapture")] else []
  {
    var stop := [StopTest, StopCapture];
    assert [StartCapture, StartTest][1..] == [StartTest];
    assert stop[1..] == [StopCapture];
    var close := [CloseSession, DisconnectFromProxy];
    assert close[1..] == [DisconnectFromProxy];
    assert ProxyCalls(close) == [];
    if w.running {
      assert (stop + close)[1..] == [StopCapture] + close;
      assert ([StopCapture] + close)[1..] == close;
    }
  }

  /** As written, initialising leaves the wrapper inert: starting the streams
      afterwards issues no command; with the flag set on the wrapper itself
      the capture and the test start. */
  lemma InitAsWrittenNeverStarts()
    ensures StartLoadStreams(InitN2XAsWritten(Fresh)).trace == []
    ensures Shutdown(InitN2XAsWritten(Fresh)).trace == []
    ensures StartLoadStreams(InitN2X(Fresh)).trace == [StartCapture, StartTest]
  {
  }
}
