/** The two kinds of memory access (mem_access.h). */
module MemAccess {
  datatype Access = Instruction | Data
}
