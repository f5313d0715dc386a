/**
 * The errors the core can raise. `CustomHttpException` carries a message, an HTTP
 * status and a stable machine-readable code (src/exceptions/customhttp.exception.ts);
 * Nest's `NotFoundException` carries only a message; Prisma client errors and
 * JavaScript runtime errors reach the client as 500.
 */
module Failures {

  const BAD_REQUEST := 400
  const UNAUTHORIZED := 401
  const FORBIDDEN := 403
  const NOT_FOUND := 404
  const CONFLICT := 409
  const INTERNAL_SERVER_ERROR := 500

  /** Prisma error codes the model raises. */
  const UNIQUE_CONSTRAINT_FAILED := "P2002"
  const FOREIGN_KEY_CONSTRAINT_FAILED := "P2003"
  const RECORD_NOT_FOUND := "P2025"

  datatype Failure =
    | Custom(message: string, status: int, statusCode: string)
    | NotFoundException(message: string)
    | PrismaError(prismaCode: string)
    | RuntimeError(reason: string)
  {
    /** The HTTP status the client receives for this failure. */
    function Status(): int {
      match this
      case Custom(_, status, _) => status
      case NotFoundException(_) => NOT_FOUND
      case PrismaError(_) => INTERNAL_SERVER_ERROR
      case RuntimeError(_) => INTERNAL_SERVER_ERROR
    }
  }
}
