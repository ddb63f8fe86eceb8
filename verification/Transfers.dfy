/** One DMA transfer: a run of descriptors that the hardware processes as a unit. */
module Transfers {

  datatype TransferState = New | Submitted | Completed | Failed | Aborted

  class Transfer {
    var descIndex: nat
    var descBus: nat
    var descAdjacent: nat
    var descNum: nat
    var descCmpl: nat
    var len: nat
    var state: TransferState
    var cyclic: bool
    var lastInRequest: bool

    constructor ()
      ensures state == New && descNum == 0
    {
      descIndex, descBus, descAdjacent, descNum, descCmpl, len := 0, 0, 0, 0, 0, 0;
      state, cyclic, lastInRequest := New, false, false;
    }
  }
}
