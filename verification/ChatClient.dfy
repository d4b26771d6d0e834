/**
 MainWindow, TcpPresenter, HandShaker and TcpClientModel as the objects they are. Every event handler
 refines its step of module Client.
 */
module ChatClient {
  import opened Wrappers
  import opened SessionId
  import opened ClientCodec
  import opened Delimiter
  import C = Client

  class TcpClientModel {
    var online: bool
    ghost var sent: seq<C.Sent>               // every frame a write was called for
    ghost var texts: seq<string>              // the texts this socket has accepted
    ghost var wire: string                    // and the bytes it got of them
    ghost var reports: seq<Option<string>>    // calls of handle_msg_send_failure

    constructor (ghost sent: seq<C.Sent>)
      ensures !online && this.sent == sent
      ensures texts == [] && wire == "" && reports == []
    {
      online := false;
      this.sent := sent;
      texts, wire, reports := [], "", [];
    }

    /** The bytes on the wire are the accepted texts, each with the delimiter. */
    ghost predicate Framed()
      reads this
    {
      wire == Encode(texts)
    }

    /** Append the delimiter, write, and report how that went. `msg` is the text of the frame; of a chat frame it
        is the JSON that Qt makes of it. Whether the socket accepts the bytes is its own. */
    method SendMessage(frame: C.Sent, msg: string) returns (accepted: bool)
      requires frame.Chat? || msg == frame.text
      modifies this
      ensures online == old(online)
      ensures sent == if online then old(sent) + [frame] else old(sent)
      ensures accepted ==> online
      ensures texts == if accepted then old(texts) + [msg] else old(texts)
      ensures wire == if accepted then old(wire) + (msg + DELIM) else old(wire)
      ensures reports == if online then old(reports) + [if accepted then None else Some(msg)] else old(reports)
      ensures old(Framed()) ==> Framed()
    {
      accepted := false;
      if online {
        sent := sent + [frame];
        var message := msg + DELIM;
        accepted := *;
        if accepted {
          EncodeSnoc(texts, msg);
          wire := wire + message;
          texts := texts + [msg];
        }
        reports := reports + [if accepted then None else Some(msg)];
      }
    }

    method Disconnect()
      modifies this
      ensures !online && sent == old(sent)
    {
      if online {
        online := false;
      }
    }

    /** connecting_to_host, once waitForConnected has said how it went. */
    method ConnectingToHost(presenter: TcpPresenter, result: C.ConnectionResult)
      requires presenter.model == this && presenter.view.Valid() && presenter.view.presenter == presenter
      modifies this, presenter.handShaker, presenter.view`connected
      ensures presenter.view.View() == C.Next(old(presenter.view.View()), C.ConnectResponse(result))
    {
      if result.Success? {
        online := true;
      }
      presenter.HandleConnectResponse(result);
    }

    /** Hand the messages on one by one. */
    method HandOn(presenter: TcpPresenter, inbox: seq<string>)
      requires presenter.model == this && presenter.view.Valid() && presenter.view.presenter == presenter
      modifies this, presenter, presenter.handShaker, presenter.view
      ensures presenter.view.Valid() && presenter.view.presenter == presenter
      ensures presenter.view.View() == C.ReceiveAll(old(presenter.view.View()), inbox)
    {
      var k := 0;
      assert inbox[..0] == [];
      while k < |inbox|
        invariant 0 <= k <= |inbox|
        invariant presenter.view.Valid() && presenter.view.presenter == presenter
        invariant presenter.view.View() == C.ReceiveAll(old(presenter.view.View()), inbox[..k])
      {
        C.ReceiveOneMore(old(presenter.view.View()), inbox, k);
        presenter.HandleMsgReception(inbox[k]);
        k := k + 1;
      }
      assert inbox[..k] == inbox;
    }

    /** Cut the received data at the delimiter and hand on the pieces, without an empty last one. */
    method ReceivingMsg(presenter: TcpPresenter, data: string)
      requires presenter.model == this && presenter.view.Valid() && presenter.view.presenter == presenter
      modifies this, presenter, presenter.handShaker, presenter.view
      ensures presenter.view.Valid() && presenter.view.presenter == presenter
      ensures presenter.view.View() == C.ReceiveAll(old(presenter.view.View()), Decode(data))
    {
      var inbox := Split(data);
      if inbox[|inbox| - 1] == "" {
        inbox := inbox[..|inbox| - 1];
      }
      HandOn(presenter, inbox);
    }
  }

  class HandShaker {
    var mode: C.HandShakeMode
    var sessionId: int
    var connectionResult: C.ConnectionResult

    ghost function State(): C.HandShaker
      reads this
    {
      C.HandShaker(mode, sessionId, connectionResult)
    }

    constructor ()
      ensures State() == C.FRESH
    {
      mode, sessionId, connectionResult := C.AwaitHandShake, -1, Success("");
    }

    method Reset()
      modifies this
      ensures State() == C.FRESH
    {
      mode, sessionId, connectionResult := C.AwaitHandShake, -1, Success("");
    }

    method AwaitHandshake(presenter: TcpPresenter, result: C.ConnectionResult)
      requires presenter.handShaker == this && presenter.view.Valid() && presenter.view.presenter == presenter
      modifies this, presenter.model
      ensures presenter.view.View() == C.AwaitHandshake(old(presenter.view.View()), result)
    {
      connectionResult := result;
      var _ := presenter.model.SendMessage(C.Password(presenter.view.password), presenter.view.password);
      mode := C.AwaitSessionId;
    }

    method ParseSessionId(presenter: TcpPresenter, msg: string) returns (ok: bool)
      requires presenter.handShaker == this && presenter.view.Valid() && presenter.view.presenter == presenter
      modifies this, presenter.model, presenter.view`connected, presenter.view`lastParsed
      ensures ok <==> ToLongLong(msg).Some?
      ensures presenter.view.View() == C.ParseSessionId(old(presenter.view.View()), ToLongLong(msg))
    {
      var parsed := ToLongLong(msg);
      sessionId := if parsed.Some? then parsed.value else 0;
      if parsed.None? {
        presenter.view.HandleConnectResponse(Failure("ConnectionRejected: Wrong Password"));
        return false;
      }
      presenter.view.lastParsed := parsed;
      mode := C.HandShakeOk;
      if presenter.broadcastName {
        var _ := presenter.model.SendMessage(C.Name(presenter.view.username), presenter.view.username);
      }
      presenter.view.HandleConnectResponse(connectionResult);
      return true;
    }
  }

  class TcpPresenter {
    const view: MainWindow
    const model: TcpClientModel
    const handShaker: HandShaker
    const broadcastName: bool
    var messageHandler: Option<C.MessageHandler>

    constructor (view: MainWindow, model: TcpClientModel, broadcastName: bool)
      ensures this.view == view && this.model == model && this.broadcastName == broadcastName
      ensures messageHandler == None && fresh(handShaker) && handShaker.State() == C.FRESH
    {
      this.view, this.model, this.broadcastName := view, model, broadcastName;
      messageHandler := None;
      handShaker := new HandShaker();
    }

    method HandleConnectResponse(result: C.ConnectionResult)
      requires view.Valid() && view.presenter == this
      modifies handShaker, model, view`connected
      ensures view.View() == C.PresenterConnectResponse(old(view.View()), result)
    {
      if result.Failure? {
        view.HandleConnectResponse(result);
        return;
      }
      handShaker.AwaitHandshake(this, result);
    }

    method HandleMsgReception(msg: string)
      requires view.Valid() && view.presenter == this
      modifies this, handShaker, model, view`connected, view`lastParsed, view`shown
      ensures view.View() == C.Receive(old(view.View()), msg)
    {
      if handShaker.mode == C.AwaitSessionId {
        var ok := handShaker.ParseSessionId(this, msg);
        if ok {
          messageHandler := Some(C.MessageHandler(view.username, handShaker.sessionId));
          return;
        }
      }
      if messageHandler.None? {
        return;
      }
      view.HandleMsgReception(msg);
    }

    /** `json` is what Qt makes of the message. */
    method SendMessage(text: string, json: string)
      requires view.Valid() && view.presenter == this
      modifies model
      ensures view.View() == C.PresenterSend(old(view.View()), text)
    {
      if messageHandler.None? {
        return;
      }
      var _ := model.SendMessage(C.Chat(messageHandler.value, text), json);
    }

    method Disconnect()
      requires view.Valid() && view.presenter == this
      modifies this, handShaker, model
      ensures view.View() == C.Disconnect(old(view.View()))
    {
      model.Disconnect();
      messageHandler := None;
      handShaker.Reset();
    }
  }

  class MainWindow {
    var presenter: TcpPresenter?
    var connected: bool
    var username: string
    var password: string
    ghost var shown: seq<string>
    ghost var lastParsed: Option<int>

    ghost predicate Valid()
      reads this
    {
      presenter != null && presenter.view == this
    }

    ghost function View(): C.Client
      requires Valid()
      reads this, presenter, presenter.model, presenter.handShaker
    {
      C.Client(username, password, connected, presenter.broadcastName, presenter.messageHandler,
               presenter.handShaker.State(), presenter.model.online, presenter.model.sent, shown, lastParsed)
    }

    constructor (username: string, password: string, broadcastName: bool)
      ensures Valid() && View() == C.Start(username, password, broadcastName)
    {
      this.username, this.password, connected := username, password, false;
      shown, lastParsed := [], None;
      presenter := null;
      new;
      var model := new TcpClientModel([]);
      presenter := new TcpPresenter(this, model, broadcastName);
    }

    method HandleConnectResponse(result: C.ConnectionResult)
      modifies this`connected
      ensures connected == result.Success?
    {
      connected := result.Success?;
    }

    method HandleMsgReception(msg: string)
      modifies this`shown
      ensures shown == if connected then old(shown) + [msg] else old(shown)
    {
      if !connected {
        return;
      }
      shown := shown + [msg];
    }

    method HandleDisconnectFromHost()
      requires Valid()
      modifies this`connected, presenter.model
      ensures View() == C.Next(old(View()), C.RemoteClosed)
    {
      presenter.model.online := false;
      connected := false;
    }

    method OnConnectBtnClicked()
      requires Valid()
      modifies this`connected, presenter, presenter.handShaker, presenter.model
      ensures View() == C.Next(old(View()), C.ConnectClicked)
    {
      if connected {
        presenter.Disconnect();
        connected := false;
      }
    }

    method OnSendBtnClicked(text: string, json: string)
      requires Valid()
      modifies presenter.model
      ensures View() == C.Next(old(View()), C.SendClicked(text))
    {
      if connected {
        presenter.SendMessage(text, json);
      }
    }

    /** A new presenter with a new model; an open connection is closed first. */
    method SetConnectionMode(broadcastName: bool)
      requires Valid()
      modifies this`connected, this`presenter, presenter, presenter.handShaker, presenter.model
      ensures Valid() && View() == C.Next(old(View()), C.ModeChanged(broadcastName))
    {
      if connected {
        OnConnectBtnClicked();
      }
      var model := new TcpClientModel(presenter.model.sent);
      presenter := new TcpPresenter(this, model, broadcastName);
    }
  }
}
