/** The statuses that every channel answers with (chrpc/include/chrpc/channel.h). */
module Channel {
  datatype ChannelStatus =
    | ChnSuccess
    | ChnBufferTooSmall
    | ChnInvalidMsgSize
    | ChnNoIncomingMsg
    | ChnChannelFull
    | ChnCannotWrite
    | ChnCannotRead
}
