/**
 The LocalRpcServer class (local-rpc-server.ts), as far as it admits signed requests and hands
 out session exports, proved against AdmissionSpec and ExportSpec.
 */
module LocalRpc {
  import opened Common
  import opened AdmissionSpec
  import ExportSpec

  class LocalRpcServer {
    var nonces: map<string, map<string, int>>
    var clientRequestTimes: map<string, seq<int>>
    var exportHandles: map<string, ExportSpec.Handle>

    function State(): Tables
      reads this
    {
      Tables(clientRequestTimes, nonces)
    }

    constructor ()
      ensures State() == EMPTY && exportHandles == map[]
    {
      nonces, clientRequestTimes, exportHandles := map[], map[], map[];
    }

    method VerifySignedRequest(request: Request, current: int) returns (refusal: Option<Refusal>)
      modifies this`nonces, this`clientRequestTimes
      ensures refusal == Verdict(old(State()), request, current)
      ensures State() == After(old(State()), request, current)
    {
      if Abs(request.timestamp - current) > REQUEST_SKEW_MS {
        return Some(RequestSkew);
      }
      if !request.paramsMatch {
        return Some(ParamsChanged);
      }
      if request.account.None? || request.account.value.revoked {
        return Some(ClientRevoked);
      }
      if request.requiredScope !in request.account.value.scopes {
        return Some(ScopeDenied);
      }
      if !request.keysWellFormed {
        return Some(InvalidKey);
      }
      if !request.signatureValid {
        return Some(BadSignature);
      }
      var client := request.client;
      var requestTimes := Prune(if client in clientRequestTimes then clientRequestTimes[client] else [], current);
      if |requestTimes| >= MAX_REQUESTS_PER_MINUTE {
        return Some(RateLimited);
      }
      requestTimes := requestTimes + [current];
      clientRequestTimes := clientRequestTimes[client := requestTimes];
      var live := DropExpired(if client in nonces then nonces[client] else map[], current);
      // The table of a known client is pruned in place, whatever happens next.
      if client in nonces {
        nonces := nonces[client := live];
      }
      if request.nonce in live {
        return Some(NonceReplay);
      }
      if |live| >= MAX_NONCES_PER_CLIENT {
        return Some(NonceCapacity);
      }
      live := live[request.nonce := current + NONCE_LIFETIME_MS];
      nonces := nonces[client := live];
      return None;
    }

    // The loop that deletes expired nonces, in whatever order the table yields them.
    method DropExpired(table: map<string, int>, current: int) returns (live: map<string, int>)
      ensures live == Unexpired(table, current)
    {
      live := table;
      var unseen := table.Keys;
      while unseen != {}
        invariant unseen <= table.Keys
        invariant forall nonce :: nonce in live <==> nonce in table && (nonce in unseen || table[nonce] > current)
        invariant forall nonce | nonce in live :: live[nonce] == table[nonce]
        decreases |unseen|
      {
        var nonce :| nonce in unseen;
        if live[nonce] <= current {
          live := live - {nonce};
        }
        unseen := unseen - {nonce};
      }
    }

    // Nothing of the content is delivered yet, and its owner can read it, from the beginning, for
    // five minutes.
    method OpenExport(id: string, client: string, content: ExportSpec.Bytes, now: int)
      modifies this`exportHandles
      ensures exportHandles.Keys == old(exportHandles).Keys + {id}
      ensures forall other | other in old(exportHandles) && other != id :: exportHandles[other] == old(exportHandles)[other]
      ensures ExportSpec.InOrder(exportHandles, id, client, content, [])
      ensures forall reader, later, maxBytes: nat ::
                ExportSpec.Answer(exportHandles, reader, id, 0, maxBytes, later).Ok?
                <==> reader == client && later < now + ExportSpec.EXPORT_HANDLE_LIFETIME_MS
    {
      exportHandles := exportHandles[id := ExportSpec.Handle(client, content, now + ExportSpec.EXPORT_HANDLE_LIFETIME_MS, 0)];
    }

    method ReadExport(client: string, id: string, offset: nat, maxBytes: nat, now: int)
      returns (answer: Result<ExportSpec.Chunk, ExportSpec.ReadError>)
      requires 1 <= maxBytes <= ExportSpec.MAX_EXPORT_CHUNK_BYTES
      modifies this`exportHandles
      ensures answer == ExportSpec.Answer(old(exportHandles), client, id, offset, maxBytes, now)
      ensures exportHandles == ExportSpec.HandlesAfterRead(old(exportHandles), client, id, offset, maxBytes, now)
    {
      if id !in exportHandles || exportHandles[id].client != client {
        return Err(ExportSpec.Unavailable);
      }
      var handle := exportHandles[id];
      if handle.expiresAt <= now {
        exportHandles := exportHandles - {id};
        return Err(ExportSpec.Unavailable);
      }
      if offset > |handle.content| {
        return Err(ExportSpec.OffsetPastEnd);
      }
      if offset != handle.nextOffset {
        return Err(ExportSpec.OutOfOrder);
      }
      var chunk := ExportSpec.Slice(handle.content, offset, maxBytes);
      var nextOffset := offset + |chunk|;
      var done := nextOffset >= |handle.content|;
      if done {
        exportHandles := exportHandles - {id};
      } else {
        exportHandles := exportHandles[id := handle.(nextOffset := nextOffset)];
      }
      return Ok(ExportSpec.Chunk(chunk, nextOffset, done));
    }
  }
}
