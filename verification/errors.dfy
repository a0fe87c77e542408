/** The ways `patch_bzimage` can stop without producing an image. Each one
    stands for an exception that `patch_bzimage` in patch.py lets escape. */
module Errors {

  datatype PatchError =
    | StructError         // struct.unpack_from / pack_into outside the buffer
    | SubsectionNotFound  // bytes.index found no occurrence (ValueError)
    | LzmaError           // the decompressor rejected the payload
    | SizeMismatch        // decompressed length differs from the trailing size field
    | PayloadTooBig       // recompressed payload exceeds the reserved space
}
