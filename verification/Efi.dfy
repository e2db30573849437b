/** What the modelled libraries share: status codes, bytes and machine ranges. */
module Efi {

  const UINT32_RANGE: nat := 0x1_0000_0000
  const UINT64_RANGE: nat := 0x1_0000_0000_0000_0000

  type Byte = x: int | 0 <= x < 256

  datatype Option<T> = None | Some(value: T)

  datatype Status =
    | EFI_SUCCESS
    | EFI_INVALID_PARAMETER
    | EFI_UNSUPPORTED
    | EFI_BAD_BUFFER_SIZE
    | EFI_DEVICE_ERROR
    | EFI_WRITE_PROTECTED
    | EFI_OUT_OF_RESOURCES
    | EFI_MEDIA_CHANGED
    | EFI_NOT_FOUND
    | EFI_ACCESS_DENIED
    | EFI_NOT_AVAILABLE_YET
}
