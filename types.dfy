/**
 * The record shapes of src/type.ts that the modelled code reads.
 * Fields no modelled function reads (Version, Client, Project, most of
 * Datacap and Lifecycle, the request timestamps) are not carried.
 */
module Types {
  import opened Wrappers

  datatype Signer = Signer(
    messageCid: string,
    signingAddress: string,
    createdAt: string,
    githubUsername: string)

  /** One entry of `Allocation Requests`; the amount may be null or undefined. */
  datatype AllocationRequest = AllocationRequest(
    id: string,
    active: bool,
    allocationAmount: Option<string>,
    signers: seq<Signer>)

  datatype Datacap = Datacap(
    totalRequestedAmount: string,
    weeklyAllocation: string)

  /** `Active Request ID` is `string | null`. */
  datatype Lifecycle = Lifecycle(
    activeRequestId: Option<string>)

  /**
   * An application record. `owner` and `repo` are the two properties
   * that the all-applications listing attaches to each record.
   */
  datatype Application = Application(
    id: string,
    datacap: Datacap,
    lifecycle: Lifecycle,
    allocationRequests: seq<AllocationRequest>,
    owner: Option<string>,
    repo: Option<string>)
}
