/**
 * The progress hook of a download: each event the download library reports is
 * turned into either nothing or a value for the progress bar. Byte counts and
 * the ratio are exact reals.
 */
module ProgressRelay {
  import opened Wrappers

  /** A progress event: its status and the byte counts it may carry. */
  datatype ProgressEvent = ProgressEvent(
    status: string,
    downloadedBytes: Option<real>,
    totalBytes: Option<real>,
    totalBytesEstimate: Option<real>)

  /** Python truthiness of an optional number: present and non-zero. */
  predicate Truthy(n: Option<real>)
  {
    n.Some? && n.value != 0.0
  }

  /** `a or b` on optional numbers. */
  function Or(a: Option<real>, b: Option<real>): (r: Option<real>)
    ensures Truthy(r) <==> Truthy(a) || Truthy(b)
  {
    if Truthy(a) then a else b
  }

  /** The total an event reports: the exact total, failing that the estimate. */
  function TotalOf(e: ProgressEvent): Option<real>
  {
    Or(e.totalBytes, e.totalBytesEstimate)
  }

  /** The value the hook forwards to the progress bar, if any. */
  function ProgressUpdate(e: ProgressEvent): Option<real>
  {
    if e.status == "downloading" then
      var total := TotalOf(e);
      var downloaded := e.downloadedBytes.GetOr(0.0);
      if Truthy(total) then Some(downloaded / total.value * 100.0) else None
    else if e.status == "finished" then
      Some(100.0)
    else
      None
  }

  /** A value is forwarded exactly for a finished event and for a downloading event
      with a truthy total or estimate. */
  lemma ForwardedIff(e: ProgressEvent)
    ensures ProgressUpdate(e).Some? <==>
              (e.status == "finished"
               || (e.status == "downloading" && (Truthy(e.totalBytes) || Truthy(e.totalBytesEstimate))))
  {
  }

  /** With a truthy exact total, the value is the downloaded share of it, in percent;
      missing downloaded bytes count as zero. */
  lemma DownloadingWithTotal(e: ProgressEvent)
    requires e.status == "downloading" && Truthy(e.totalBytes)
    ensures ProgressUpdate(e) == Some(e.downloadedBytes.GetOr(0.0) / e.totalBytes.value * 100.0)
  {
  }

  /** Without a truthy exact total, a truthy estimate is used instead. */
  lemma DownloadingWithEstimate(e: ProgressEvent)
    requires e.status == "downloading" && !Truthy(e.totalBytes) && Truthy(e.totalBytesEstimate)
    ensures ProgressUpdate(e)
        == Some(e.downloadedBytes.GetOr(0.0) / e.totalBytesEstimate.value * 100.0)
  {
  }

  /** The forwarded value of a downloading event, multiplied back by its total, is
      one hundred times the downloaded bytes. */
  lemma DownloadingScaled(e: ProgressEvent)
    requires e.status == "downloading" && ProgressUpdate(e).Some?
    ensures TotalOf(e).Some? && TotalOf(e).value != 0.0
    ensures ProgressUpdate(e).value * TotalOf(e).value == e.downloadedBytes.GetOr(0.0) * 100.0
  {
    var t := TotalOf(e).value;
    var d := e.downloadedBytes.GetOr(0.0);
    assert d / t * t == d;
  }

  /** While no more bytes than the total are reported, the value stays within 0..100. */
  lemma DownloadingBounded(e: ProgressEvent)
    requires e.status == "downloading" && ProgressUpdate(e).Some?
    requires TotalOf(e).value > 0.0 && 0.0 <= e.downloadedBytes.GetOr(0.0) <= TotalOf(e).value
    ensures 0.0 <= ProgressUpdate(e).value <= 100.0
  {
    var t := TotalOf(e).value;
    var d := e.downloadedBytes.GetOr(0.0);
    assert d / t <= 1.0 by {
      assert d / t * t == d;
    }
  }

  /** A finished event always forwards 100. */
  lemma FinishedForwardsFull(e: ProgressEvent)
    requires e.status == "finished"
    ensures ProgressUpdate(e) == Some(100.0)
  {
  }

  /** A downloading event with neither total nor estimate truthy, or an event of any status
      other than downloading and finished, forwards nothing. */
  lemma NothingForwarded(e: ProgressEvent)
    requires (e.status == "downloading" && !Truthy(e.totalBytes) && !Truthy(e.totalBytesEstimate))
          || (e.status != "downloading" && e.status != "finished")
    ensures ProgressUpdate(e) == None
  {
  }

  /** The value is not clamped: 300 bytes against an estimate of 200 forwards 150. */
  lemma OverEstimateExceedsFull()
    ensures ProgressUpdate(ProgressEvent("downloading", Some(300.0), None, Some(200.0))) == Some(150.0)
    ensures ProgressUpdate(ProgressEvent("downloading", Some(300.0), None, Some(200.0))).value > 100.0
  {
  }

  /** 50 of 200 bytes downloaded forwards 25. */
  lemma QuarterDownloaded()
    ensures ProgressUpdate(ProgressEvent("downloading", Some(50.0), Some(200.0), None)) == Some(25.0)
  {
  }
}
