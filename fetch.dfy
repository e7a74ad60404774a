/** The two transfers both downloaders make through libcurl (tinygit.c and
    planck.c carry the same code): `fetch_url`, which collects a response body
    in memory through the write callback, and `download_file`, which streams an
    archive to a file. The transfers themselves are not performed: what each
    left behind is an input, a `Curl.Transfer` or a `Curl.Download`. */
module Fetch {
  import opened CStr
  import Curl

  /** `struct memory`: the heap buffer `fetch_url` collects a response body in. */
  class Memory {
    var response: array?<char>
    var size: nat

    /** The buffer holds `size` bytes followed by a NUL, or is still NULL and empty. */
    ghost predicate Valid()
      reads this, response
    {
      if response == null then size == 0 else size < response.Length && response[size] == '\0'
    }

    ghost function Contents(): seq<char>
      reads this, response
      requires Valid()
    {
      if response == null then [] else response[..size]
    }

    /** `struct memory chunk = {0}` */
    constructor ()
      ensures Valid() && response == null && Contents() == []
    {
      response := null;
      size := 0;
    }

    /** `write_callback` (`write_cb` in planck.c): grow the buffer to
        `size + size*nmemb + 1` bytes, append the data, keep the NUL terminator
        and report the bytes taken. When the reallocation fails (`allocOk`
        false) nothing changes and 0 is reported. */
    method WriteCallback(data: seq<char>, itemSize: nat, nmemb: nat, allocOk: bool) returns (consumed: nat)
      requires Valid() && |data| == itemSize * nmemb
      modifies this
      ensures Valid()
      ensures allocOk ==>
        consumed == |data| && response != null && fresh(response) && response.Length == size + 1 &&
        size == old(size) + |data| && Contents() == old(Contents()) + data
      ensures !allocOk ==>
        consumed == 0 && response == old(response) && size == old(size) && Contents() == old(Contents())
    {
      var realsize := itemSize * nmemb;
      if !allocOk {
        return 0;
      }
      var ptr := new char[size + realsize + 1];
      if response != null {
        forall i | 0 <= i < size {
          ptr[i] := response[i];
        }
      }
      forall i | 0 <= i < realsize {
        ptr[size + i] := data[i];
      }
      ptr[size + realsize] := '\0';
      assert ptr[..size + realsize] == old(Contents()) + data;
      response := ptr;
      size := size + realsize;
      consumed := realsize;
    }
  }

  /** The success test of `download_file` and `fetch_url`. */
  predicate Succeeded(transportOk: bool, status: int): (ok: bool)
    ensures ok <==> transportOk && status == 200
  {
    transportOk && status == 200
  }

  /** `download_file`: 0 when the handle and the output file could be opened and
      the transfer ended with CURLE_OK and status exactly 200, otherwise -1. */
  function DownloadFile(d: Curl.Download): (r: int)
    ensures r == 0 || r == -1
    ensures r == 0 <==> d.initOk && d.fileOpened && d.transportOk && d.status == 200
  {
    if !d.initOk || !d.fileOpened then -1
    else if Succeeded(d.transportOk, d.status) then 0
    else -1
  }

  /** `fetch_url`: the collected body when the transfer ended with CURLE_OK and
      status exactly 200, otherwise NULL. A 200 that delivered no bytes left the
      buffer NULL, so it yields NULL as well. */
  function FetchUrl(t: Curl.Transfer): (body: Option<string>)
    ensures body.Some? <==> t.initOk && t.transportOk && t.status == 200 && t.received.Some?
    ensures body.Some? ==> body == t.received
  {
    if !t.initOk then None
    else if !Succeeded(t.transportOk, t.status) then None
    else t.received
  }
}
