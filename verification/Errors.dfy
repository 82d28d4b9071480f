/** The error codes the modelled services report. */
module Errors {
  datatype Error =
    // messages
    | TooManyBitsAppend | MessageTooLarge | ByteBetweenBits | StringTooLarge
    | TooManyBitsRead | MessageTooShort | StringTooShort
    | OtherMessageType
    // packets
    | UnacceptablePacket | UnacceptableMessage
    // starting the execution of a request, or of one of its instructions
    | SubServiceExecutionStartError | InstructionExecutionStartError
    // packet stores
    | NonExistingPacketStore | AlreadyExistingPacketStore | MaxNumberOfPacketStoresReached
    | SetPacketStoreWithOpenRetrievalInProgress | SetPacketStoreWithByTimeRangeRetrieval
    | GetPacketStoreWithOpenRetrievalInProgress | GetPacketStoreWithByTimeRangeRetrieval
    | GetPacketStoreWithStorageStatusEnabled | ByTimeRangeRetrievalAlreadyEnabled
    | DeletionOfPacketStoreWithStorageStatusEnabled | DeletionOfPacketWithByTimeRangeRetrieval
    | DeletionOfPacketWithOpenRetrievalInProgress | InvalidTimeWindow | DestinationPacketStoreNotEmpty
    | CopyOfPacketsFailed | UnableToHandlePacketStoreSize | InvalidVirtualChannel
    // parameter monitoring
    | GetNonExistingParameterMonitoringDefinition | InvalidRequestToDeleteParameterMonitoringDefinition
    | InvalidRequestToDeleteAllParameterMonitoringDefinitions
    // forwarding control
    | NotControlledApplication | AllServiceTypesAlreadyAllowed | MaxServiceTypesReached | MaxReportTypesReached
    | NonExistentApplicationProcess | NonExistentServiceTypeDefinition | NonExistentReportTypeDefinition
}
