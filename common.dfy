// Types shared by the kernel and the boot loader: the optional value used for
// Rust's Option and for null pointers, the kernel's error codes, and the
// frame-buffer description handed from the boot loader to the kernel.

module Common {

  datatype Option<T> = None | Some(value: T)

  /** The error codes the kernel reports through `make_error!`. */
  datatype Code =
    | NoEnoughMemory
    | IndexOutOfRange
    | InvalidPhase
    | NotImplemented
    | UnknownXhciSpeedId
    | Full

  datatype Result<T> = Ok(value: T) | Err(code: Code)

  /** UEFI GOP pixel formats. */
  datatype PixelFormat = Rgb | Bgr | Bitmask | BltOnly

  /**
   * Frame-buffer geometry. The raw `frame_buffer` pointer is not part of the
   * value: each model that writes pixels owns its byte array.
   */
  datatype FrameBufferConfig = FrameBufferConfig(
    pixelsPerScanLine: nat,
    horizontalResolution: nat,
    verticalResolution: nat,
    pixelFormat: PixelFormat)
}
