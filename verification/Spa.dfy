/** Field widths of spa.h and the block-size shift of fs/zfs.h. */
module Spa {
  const SPA_MINBLOCKSHIFT := 9
  const SPA_LSIZEBITS := 16
  const SPA_PSIZEBITS := 16
  const SPA_ASIZEBITS := 24
  const SPA_COMPRESSBITS := 7
  const SPA_VDEVBITS := 24
}
