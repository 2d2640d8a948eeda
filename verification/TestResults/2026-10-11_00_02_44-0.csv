TestResult.DisplayName,TestResult.Outcome,TestResult.Duration,TestResult.ResourceCount,RandomSeed
NtpServer.Reply (well-formedness),Passed,00:00:00.3460128,1236978,3
NtpServer.Respond (well-formedness),Passed,00:00:00.3233381,936328,3
NtpServer.RunSendsAnswers (correctness),Passed,00:00:00.3066158,1164282,3
NtpServer.Feasible (well-formedness),Passed,00:00:00.1979615,227923,3
NtpServer.ClientReadsReplyLayout (correctness),Passed,00:00:00.1784958,837498,3
NtpServer.Step (well-formedness),Passed,00:00:00.1685019,238081,3
NtpServer.ReplyBytes (well-formedness),Passed,00:00:00.1654643,651649,3
NtpServer.ClientReadsReply (correctness),Passed,00:00:00.1481815,263444,3
NtpServer.ReplyLayoutBytes (correctness),Passed,00:00:00.1404733,482974,3
NtpServer.AtomicStartsKeepListening (correctness),Passed,00:00:00.1391583,324167,3
NtpServer.StartRaceLosesListening (correctness),Passed,00:00:00.1386690,311698,3
NtpServer.ClientReadsReply (well-formedness),Passed,00:00:00.1342454,294104,3
NtpServer.OnReceiveData (well-formedness),Passed,00:00:00.1331713,216574,3
NtpServer.DeafUntilRestarted (correctness),Passed,00:00:00.1327164,303880,3
NtpServer.ReplyPacket (well-formedness),Passed,00:00:00.1296838,68330,3
NtpServer.WorkingServerRearms (well-formedness),Passed,00:00:00.1206605,230634,3
NtpServer.EventKeepsListening (well-formedness),Passed,00:00:00.1175855,225660,3
NtpServer.ReplyParsesBack (correctness),Passed,00:00:00.1164729,309133,3
NtpServer.ClientReadsReplyLayout (well-formedness),Passed,00:00:00.1144483,200635,3
NtpServer.StoppedServerBound (correctness),Passed,00:00:00.1138777,236052,3
NtpServer.Answers (well-formedness),Passed,00:00:00.1127855,204154,3
NtpServer.RunSendsAnswers (well-formedness),Passed,00:00:00.1125435,229468,3
NtpServer.StoppedServerBound (well-formedness),Passed,00:00:00.1101025,224120,3
NtpServer.CompletionStep (correctness),Passed,00:00:00.1078143,229088,3
NtpServer.AtomicStartsKeepListening (well-formedness),Passed,00:00:00.1064281,232358,3
NtpServer.StoppedServerDrains (well-formedness),Passed,00:00:00.1012659,230712,3
NtpServer.Run (well-formedness),Passed,00:00:00.1005626,237062,3
NtpServer.ReplyDependsOnlyOnTransmit (correctness),Passed,00:00:00.0928631,221336,3
NtpServer.ReplyParsesBack (well-formedness),Passed,00:00:00.0920673,185538,3
NtpServer.EventKeepsListening (correctness),Passed,00:00:00.0892639,236285,3
NtpServer.ReplyBytes (correctness),Passed,00:00:00.0853673,202676,3
NtpServer.StartRaceLosesListening (well-formedness),Passed,00:00:00.0844174,233173,3
NtpServer.WorkingServerRearms (correctness),Passed,00:00:00.0822395,281555,3
NtpServer.RunKeepsListening (well-formedness),Passed,00:00:00.0799250,228521,3
NtpServer.RunKeepsListening (correctness),Passed,00:00:00.0794676,245425,3
NtpServer.DeafUntilRestarted (well-formedness),Passed,00:00:00.0780432,230891,3
NtpServer.CompletionStep (well-formedness),Passed,00:00:00.0756505,223879,3
NtpServer.StoppedServerDrains (correctness),Passed,00:00:00.0735880,287931,3
NtpServer.ReplyDependsOnlyOnTransmit (well-formedness),Passed,00:00:00.0712631,185575,3
NtpServer.ReplyBody (well-formedness),Passed,00:00:00.0663172,18376,3
NtpServer.TransmitBytes (correctness),Passed,00:00:00.0482869,171742,3
NtpServer.ReplyPacketHeader (correctness),Passed,00:00:00.0414725,137121,3
NtpServer.TransmitBytes (well-formedness),Passed,00:00:00.0360109,32491,3
NtpServer.ReplyLayoutBytes (well-formedness),Passed,00:00:00.0201261,55917,3
NtpServer.Start (well-formedness),Passed,00:00:00.0180727,25824,3
NtpServer.Initial (well-formedness),Passed,00:00:00.0168750,3717,3
NtpServer.StartSecondHalf (well-formedness),Passed,00:00:00.0148821,18909,3
NtpServer.StartFirstHalf (well-formedness),Passed,00:00:00.0120756,18495,3
NtpServer.Stop (well-formedness),Passed,00:00:00.0111386,9804,3
NtpServer.Rearm (well-formedness),Passed,00:00:00.0088575,15377,3
NtpServer.ZeroField16 (correctness),Passed,00:00:00.0069287,9927,3
NtpServer.ZeroField16 (well-formedness),Passed,00:00:00.0069142,9673,3
NtpServer.AtomicStarts (well-formedness),Passed,00:00:00.0063000,13385,3
