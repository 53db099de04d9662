/**
 * The plugin's exception type and its five named factories. An exception
 * carries a message and an HTTP-like status code; each factory has a default
 * for both, and passes explicit arguments through unchanged.
 */
module Exceptions {

  datatype AccessKeyException = AccessKeyException(message: string, code: int)

  /** `AccessKeyException::unauthorized()`. */
  function Unauthorized(message: string := "Unauthorized access", code: int := 401): (e: AccessKeyException)
    ensures e.message == message && e.code == code
  {
    AccessKeyException(message, code)
  }

  /** `AccessKeyException::ipDetectionFailed()`. */
  function IpDetectionFailed(message: string := "Failed to detect IP address", code: int := 500): (e: AccessKeyException)
    ensures e.message == message && e.code == code
  {
    AccessKeyException(message, code)
  }

  /** `AccessKeyException::configurationError()`. */
  function ConfigurationError(message: string := "Configuration error", code: int := 500): (e: AccessKeyException)
    ensures e.message == message && e.code == code
  {
    AccessKeyException(message, code)
  }

  /** `AccessKeyException::invalidIp()`. */
  function InvalidIp(message: string := "Invalid IP address", code: int := 400): (e: AccessKeyException)
    ensures e.message == message && e.code == code
  {
    AccessKeyException(message, code)
  }

  /** `AccessKeyException::accessDenied()`. */
  function AccessDenied(message: string := "Access denied", code: int := 403): (e: AccessKeyException)
    ensures e.message == message && e.code == code
  {
    AccessKeyException(message, code)
  }

  /** What each factory produces when called without arguments. */
  lemma FactoryDefaults()
    ensures Unauthorized() == AccessKeyException("Unauthorized access", 401)
    ensures IpDetectionFailed() == AccessKeyException("Failed to detect IP address", 500)
    ensures ConfigurationError() == AccessKeyException("Configuration error", 500)
    ensures InvalidIp() == AccessKeyException("Invalid IP address", 400)
    ensures AccessDenied() == AccessKeyException("Access denied", 403)
  {
  }

  /** Only the message is given: the factory's default code is kept. */
  lemma MessageOnlyKeepsDefaultCode(message: string)
    ensures Unauthorized(message).code == 401
    ensures IpDetectionFailed(message).code == 500
    ensures ConfigurationError(message).code == 500
    ensures InvalidIp(message).code == 400
    ensures AccessDenied(message).code == 403
  {
  }
}
