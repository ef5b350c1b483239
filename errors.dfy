/**
 * The exception classes of src/sd_recovery/utils/errors.py as one error-kind
 * datatype. The classes carry no behaviour beyond their type.
 */
module Errors {

  datatype ErrorKind =
    | DeviceNotFound        // DeviceNotFoundError
    | UnsafeDevice          // UnsafeDeviceError
    | PhotoRecNotFound      // PhotoRecNotFoundError
    | PhotoRecExecution     // PhotoRecExecutionError
    | Validation            // ValidationError
    | Mount                 // MountError
    | OsError               // any other exception (OSError, EOFError, ...)
}
