/** Results of calls that report an error number. */
module Results {
  const EINVAL := 22
  const ENOMEM := 12
  const HDR_COMPRESSION_COOKIE_MISMATCH := -29999
  const HDR_ENCODING_COOKIE_MISMATCH := -29998
  const HDR_INFLATE_FAIL := -29994
  const HDR_TRAILING_ZEROS_INVALID := -29992
  const HDR_VALUE_TRUNCATED := -29991
  const HDR_ENCODED_INPUT_TOO_LONG := -29990

  datatype Result<+T> = Success(value: T) | Failure(error: int)
  datatype Option<+T> = None | Some(value: T)
}
