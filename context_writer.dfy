/**
 * ContextWriter: the heif::Context::Writer that forwards the encoded file to a
 * QIODevice and reports to libheif whether the device took all of it.
 */
module ContextWriter {
  import opened Primitives

  /** The heif_error codes this writer produces. */
  datatype ErrorCode = Ok | EncodingError
  datatype SuberrorCode = Unspecified | CannotWriteOutputData

  /** heif_error: a code, a subcode and a message. */
  datatype HeifError = HeifError(code: ErrorCode, subcode: SuberrorCode, message: string)

  /** kOkError. */
  const OK_ERROR: HeifError := HeifError(Ok, Unspecified, "ok")

  /** kWriteError. */
  const WRITE_ERROR: HeifError := HeifError(EncodingError, CannotWriteOutputData, "write failed")

  const SIZE_T_LIMIT: int := 0x1_0000_0000_0000_0000
  const INT64_LIMIT: int := 0x8000_0000_0000_0000

  /** A length as a size_t (modulo 2^64) passed through static_cast<int64_t>. */
  function ToInt64(size: nat): (r: int)
    ensures -INT64_LIMIT <= r < INT64_LIMIT
    ensures r % SIZE_T_LIMIT == size % SIZE_T_LIMIT
    ensures size < INT64_LIMIT ==> r == size
  {
    var w := size % SIZE_T_LIMIT;
    if w < INT64_LIMIT then w else w - SIZE_T_LIMIT
  }

  /** The result for a request of `size` bytes of which the device reported `written`. */
  function WriteResult(size: nat, written: int): (e: HeifError)
    ensures e == OK_ERROR || e == WRITE_ERROR
  {
    if written != ToInt64(size) then WRITE_ERROR else OK_ERROR
  }

  /**
   * Success exactly when the device wrote the whole request; a short count, a
   * longer one and the error value -1 all give the write error.
   */
  lemma WriteResultExact(size: nat, written: int)
    requires size < INT64_LIMIT
    ensures WriteResult(size, written) == OK_ERROR <==> written == size
    ensures WriteResult(size, written).code == Ok <==> written == size
    ensures written != size ==> WriteResult(size, written) == WRITE_ERROR
  {
  }

  /** The write side of a QIODevice: every request it received, in order. */
  class OutputDevice {
    var requests: seq<seq<byte>>

    constructor ()
      ensures requests == []
    {
      requests := [];
    }

    /**
     * QIODevice::write. How many bytes the device takes (or -1 on error) is not
     * visible here, so it is the argument `reported`.
     */
    method Write(data: seq<byte>, reported: int) returns (written: int)
      modifies this
      ensures requests == old(requests) + [data]
      ensures written == reported
    {
      requests := requests + [data];
      written := reported;
    }
  }

  class ContextWriter {
    const device: OutputDevice

    constructor (device: OutputDevice)
      ensures this.device == device
    {
      this.device := device;
    }

    /** ContextWriter::write: one device write, no retry, result by exact count. */
    method Write(data: seq<byte>, reported: int) returns (e: HeifError)
      modifies device
      ensures device.requests == old(device.requests) + [data]
      ensures e == WriteResult(|data|, reported)
    {
      var bytesWritten := device.Write(data, reported);
      if bytesWritten != ToInt64(|data|) {
        return WRITE_ERROR;
      }
      return OK_ERROR;
    }
  }
}
