/** The prefetch registry both loaders keep: a map from url to the job
    launched for it. A job stands for `scope.launch { load(url) }`; it records
    what it loads and whether it was cancelled, and is otherwise a token. */
module Prefetching {
  import opened ImageTypes

  class Job {
    const url: string
    /** `load(url)` runs with the default transformation. */
    const transformation: ImageTransformation
    var cancelled: bool

    /** `scope.launch { load(url) }`. */
    constructor Launch(url: string)
      ensures this.url == url && transformation == None && !cancelled
    {
      this.url := url;
      transformation := None;
      cancelled := false;
    }

    /** `Job.cancel()`. */
    method Cancel()
      modifies this
      ensures cancelled
    {
      cancelled := true;
    }
  }

  /** The registry after `prefetch(url)` with `job` as the job it would
      launch: unchanged when the url is already a key. */
  function AfterPrefetch<J>(jobs: map<string, J>, url: string, job: J): (r: map<string, J>)
    ensures url in r
    ensures url in jobs ==> r == jobs
    ensures url !in jobs ==> r[url] == job && r.Keys == jobs.Keys + {url}
    ensures forall u :: u != url && u in jobs ==> u in r && r[u] == jobs[u]
  {
    if url in jobs then jobs else jobs[url := job]
  }

  /** The registry after `cancelPrefetch(url)`: that url's entry removed. */
  function AfterCancel<J>(jobs: map<string, J>, url: string): (r: map<string, J>)
    ensures url !in r && r.Keys == jobs.Keys - {url}
    ensures forall u :: u in r ==> r[u] == jobs[u]
  {
    jobs - {url}
  }

  /** Single flight: a second prefetch of the same url, whatever job it would
      launch, changes nothing; entries are never removed on completion. */
  lemma PrefetchSingleFlight<J>(jobs: map<string, J>, url: string, first: J, second: J)
    ensures AfterPrefetch(AfterPrefetch(jobs, url, first), url, second) == AfterPrefetch(jobs, url, first)
    ensures AfterPrefetch(jobs, url, first)[url] == if url in jobs then jobs[url] else first
  {
  }

  /** After a cancel the next prefetch registers its own job again. */
  lemma CancelThenPrefetch<J>(jobs: map<string, J>, url: string, job: J)
    ensures AfterPrefetch(AfterCancel(jobs, url), url, job)[url] == job
    ensures AfterPrefetch(AfterCancel(jobs, url), url, job).Keys == jobs.Keys + {url}
  {
  }

  /** Cancelling one url leaves every other url's registration as it was. */
  lemma CancelLeavesOthers<J>(jobs: map<string, J>, url: string, other: string)
    requires other != url
    ensures other in AfterCancel(jobs, url) <==> other in jobs
    ensures other in jobs ==> AfterCancel(jobs, url)[other] == jobs[other]
  {
  }
}
